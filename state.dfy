/** The state the library context holds, and every operation on it as a
    function from the state before to the state after. "Now" is a parameter;
    fresh identifiers come from the counter `nextId`. */
module LibraryState {
  import opened Types
  import opened Seqs
  import opened Calendar
  import opened LateFees
  import opened Catalog
  import opened Ledger
  import opened Notices

  datatype Library = Library(
    books: seq<Book>,
    borrowRecords: seq<BorrowRecord>,
    users: seq<AuthUser>,
    currentUser: Option<User>,
    notifications: seq<Notification>,
    nextId: Id)

  predicate UniqueNotificationIds(ns: seq<Notification>) {
    forall i, j :: 0 <= i < j < |ns| ==> ns[i].id != ns[j].id
  }

  /** Identifiers are unique within each collection, and the counter is past
      every identifier in use, so the next one minted is fresh. */
  predicate Valid(s: Library) {
    && UniqueBookIds(s.books)
    && UniqueRecordIds(s.borrowRecords)
    && UniqueNotificationIds(s.notifications)
    && (forall i :: 0 <= i < |s.books| ==> s.books[i].id < s.nextId)
    && (forall i :: 0 <= i < |s.borrowRecords| ==> s.borrowRecords[i].id < s.nextId)
    && (forall i :: 0 <= i < |s.notifications| ==> s.notifications[i].id < s.nextId)
  }

  /** A catalog entry whose availability flag agrees with its free copies. */
  predicate Consistent(b: Book) {
    b.available == (b.quantity > 0)
  }

  /** Every entry consistent, and no free-copy count below zero. */
  predicate Stocked(books: seq<Book>) {
    forall i :: 0 <= i < |books| ==> Consistent(books[i]) && books[i].quantity >= 0
  }

  // ---------------------------------------------------------------- catalog

  /** addBook: the catalog grows by one entry at its end under the next
      identifier; nothing else but the counter changes. */
  function AddBook(s: Library, details: BookDetails, quantity: int, borrowedBy: seq<UserId>): (r: Library)
    ensures |r.books| == |s.books| + 1 && r.books[..|s.books|] == s.books
    ensures r.books[|s.books|].id == s.nextId && r.nextId > s.nextId
    ensures r.borrowRecords == s.borrowRecords && r.notifications == s.notifications
    ensures r.users == s.users && r.currentUser == s.currentUser
  {
    s.(books := s.books + [NewBook(s.nextId, details, quantity, borrowedBy)], nextId := s.nextId + 1)
  }

  /** updateBook: only the catalog can change, and it keeps its length. */
  function UpdateBook(s: Library, updated: Book): (r: Library)
    ensures |r.books| == |s.books|
    ensures !HasBook(s.books, updated.id) ==> r == s
    ensures r.borrowRecords == s.borrowRecords && r.notifications == s.notifications
    ensures r.users == s.users && r.currentUser == s.currentUser && r.nextId == s.nextId
  {
    s.(books := ReplaceBook(s.books, updated.id, updated))
  }

  /** deleteBook: only the catalog can change, and it never grows. */
  function DeleteBook(s: Library, id: Id): (r: Library)
    ensures |r.books| <= |s.books| && !HasBook(r.books, id)
    ensures r.borrowRecords == s.borrowRecords && r.notifications == s.notifications
    ensures r.users == s.users && r.currentUser == s.currentUser && r.nextId == s.nextId
  {
    if !HasBook(s.books, id) then s else s.(books := RemoveBook(s.books, id))
  }

  /** The new entry gets a fresh identifier and is marked available; it is
      consistent only when it has free copies. */
  lemma AddBookEffect(s: Library, details: BookDetails, quantity: int, borrowedBy: seq<UserId>)
    requires Valid(s)
    ensures var s' := AddBook(s, details, quantity, borrowedBy);
      && Valid(s')
      && FindBook(s'.books, s.nextId) == Some(NewBook(s.nextId, details, quantity, borrowedBy))
      && !HasBook(s.books, s.nextId)
      && s'.books[..|s.books|] == s.books
      && (Consistent(s'.books[|s.books|]) <==> quantity > 0)
  {
    var s' := AddBook(s, details, quantity, borrowedBy);
    assert s'.books[..|s.books|] == s.books;
    assert UniqueBookIds(s'.books);
    BookIndexAt(s'.books, |s.books|);
  }

  /** An update replaces the entry with that identifier wholesale, whatever
      flags it carries, and touches nothing else; an unknown id changes nothing. */
  lemma UpdateBookEffect(s: Library, updated: Book)
    requires Valid(s)
    ensures var s' := UpdateBook(s, updated);
      && Valid(s')
      && |s'.books| == |s.books|
      && (forall i :: 0 <= i < |s.books| && s.books[i].id != updated.id ==> s'.books[i] == s.books[i])
      && (HasBook(s.books, updated.id) ==> FindBook(s'.books, updated.id) == Some(updated))
      && (!HasBook(s.books, updated.id) ==> s' == s)
      && s'.borrowRecords == s.borrowRecords && s'.notifications == s.notifications
      && s'.users == s.users && s'.currentUser == s.currentUser && s'.nextId == s.nextId
  {
    var s' := UpdateBook(s, updated);
    if !HasBook(s.books, updated.id) {
      assert s'.books == s.books;
    } else {
      var k := BookIndex(s.books, updated.id).value;
      assert forall i :: 0 <= i < |s.books| && i != k ==> s.books[i].id != updated.id;
      assert UniqueBookIds(s'.books);
      BookIndexAt(s'.books, k);
    }
  }

  /** Deleting cuts exactly the entry with that identifier out of the catalog,
      keeping the others in order, and changes nothing else: the ledger keeps
      the book's loans, which become orphans. An unknown id changes nothing. */
  lemma DeleteBookEffect(s: Library, id: Id)
    requires Valid(s)
    ensures var s' := DeleteBook(s, id);
      && Valid(s')
      && !HasBook(s'.books, id)
      && (forall b :: b in s'.books <==> b in s.books && b.id != id)
      && |s'.books| == (if HasBook(s.books, id) then |s.books| - 1 else |s.books|)
      && (HasBook(s.books, id) ==>
            var k := BookIndex(s.books, id).value; s'.books == s.books[..k] + s.books[k + 1..])
      && (!HasBook(s.books, id) ==> s' == s)
      && s'.borrowRecords == s.borrowRecords && s'.notifications == s.notifications
      && s'.users == s.users && s'.currentUser == s.currentUser && s'.nextId == s.nextId
  {
    var s' := DeleteBook(s, id);
    if HasBook(s.books, id) {
      RemoveBookDropsOne(s.books, id);
      RemoveBookSplices(s.books, id);
      assert UniqueBookIds(s'.books) by {
        RemoveKeepsUnique(s.books, id);
      }
    }
  }

  lemma {:induction false} RemoveKeepsUnique(books: seq<Book>, id: Id)
    requires UniqueBookIds(books)
    ensures UniqueBookIds(RemoveBook(books, id))
    ensures forall i :: 0 <= i < |RemoveBook(books, id)| ==> RemoveBook(books, id)[i] in books
  {
    if books != [] {
      RemoveKeepsUnique(books[1..], id);
      var rest := RemoveBook(books[1..], id);
      assert forall i :: 0 <= i < |rest| ==> rest[i] in books[1..];
      assert forall i :: 0 <= i < |rest| ==> rest[i].id != books[0].id;
    }
  }

  // ---------------------------------------------------------------- lending

  /** borrowBook: refused silently for an unknown book or one without free
      copies; otherwise one copy is lent and an open record is appended. */
  function Borrow(s: Library, bookId: Id, studentId: UserId, now: Time): (r: Library)
    ensures |r.books| == |s.books|
    ensures s.borrowRecords <= r.borrowRecords && |r.borrowRecords| <= |s.borrowRecords| + 1
    ensures r.nextId == s.nextId + (|r.borrowRecords| - |s.borrowRecords|)
    ensures r.users == s.users && r.currentUser == s.currentUser && r.notifications == s.notifications
  {
    match FindBook(s.books, bookId)
    case None => s
    case Some(b) =>
      if b.quantity <= 0 then s
      else s.(books := ReplaceBook(s.books, bookId, LentCopy(b, studentId)),
              borrowRecords := s.borrowRecords + [NewRecord(s.nextId, bookId, studentId, now)],
              nextId := s.nextId + 1)
  }

  /** returnBook: refused silently without an open loan for the pair or without
      the book; otherwise the first open loan is closed and the copy comes back. */
  function Return(s: Library, bookId: Id, studentId: UserId, now: Time): (r: Library)
    ensures |r.books| == |s.books| && |r.borrowRecords| == |s.borrowRecords|
    ensures forall i :: 0 <= i < |s.borrowRecords| ==> r.borrowRecords[i].id == s.borrowRecords[i].id
    ensures r.users == s.users && r.currentUser == s.currentUser && r.notifications == s.notifications
    ensures r.nextId == s.nextId
  {
    match OpenRecordIndex(s.borrowRecords, bookId, studentId)
    case None => s
    case Some(j) =>
      match FindBook(s.books, bookId)
      case None => s
      case Some(b) =>
        s.(books := ReplaceBook(s.books, bookId, ReturnedCopy(b, studentId)),
           borrowRecords := CloseRecord(s.borrowRecords, s.borrowRecords[j], now))
  }

  /** A borrow changes nothing exactly when the book is unknown or has no free copy. */
  lemma BorrowRefused(s: Library, bookId: Id, studentId: UserId, now: Time)
    ensures Borrow(s, bookId, studentId, now) == s
        <==> !HasBook(s.books, bookId) || FindBook(s.books, bookId).value.quantity <= 0
  {
    var s' := Borrow(s, bookId, studentId, now);
    if HasBook(s.books, bookId) && FindBook(s.books, bookId).value.quantity > 0 {
      assert |s'.borrowRecords| == |s.borrowRecords| + 1;
    }
  }

  /** A successful borrow lends one copy of that book to the student, appends
      one open record due a loan period later under a fresh identifier, and
      changes nothing else. */
  lemma BorrowEffect(s: Library, bookId: Id, studentId: UserId, now: Time)
    requires Valid(s) && HasBook(s.books, bookId) && FindBook(s.books, bookId).value.quantity > 0
    ensures var s' := Borrow(s, bookId, studentId, now); var k := BookIndex(s.books, bookId).value;
      && Valid(s')
      && |s'.books| == |s.books|
      && s'.books[k].quantity == s.books[k].quantity - 1
      && s'.books[k].available == (s'.books[k].quantity > 0)
      && s'.books[k].borrowedBy == s.books[k].borrowedBy + [studentId]
      && s'.books[k] == s.books[k].(quantity := s'.books[k].quantity, available := s'.books[k].available,
                                    borrowedBy := s'.books[k].borrowedBy)
      && (forall i :: 0 <= i < |s.books| && i != k ==> s'.books[i] == s.books[i])
      && s'.borrowRecords == s.borrowRecords + [NewRecord(s.nextId, bookId, studentId, now)]
      && (forall i :: 0 <= i < |s.borrowRecords| ==> s.borrowRecords[i].id != s.nextId)
      && s'.users == s.users && s'.currentUser == s.currentUser && s'.notifications == s.notifications
  {
    var k := BookIndex(s.books, bookId).value;
    assert forall i :: 0 <= i < |s.books| && i != k ==> s.books[i].id != bookId;
  }

  /** A return changes nothing exactly when the pair has no open loan or the
      book is gone. */
  lemma ReturnRefused(s: Library, bookId: Id, studentId: UserId, now: Time)
    ensures Return(s, bookId, studentId, now) == s
        <==> !HasOpenRecord(s.borrowRecords, bookId, studentId) || !HasBook(s.books, bookId)
  {
    var s' := Return(s, bookId, studentId, now);
    if HasOpenRecord(s.borrowRecords, bookId, studentId) && HasBook(s.books, bookId) {
      var j := OpenRecordIndex(s.borrowRecords, bookId, studentId).value;
      assert s'.borrowRecords[j].returned != s.borrowRecords[j].returned;
    }
  }

  /** A return closes only the first open loan of the pair, with the fee owed at
      `now`; the copy comes back, the book is marked available and the student
      leaves its borrower list entirely. */
  lemma ReturnEffect(s: Library, bookId: Id, studentId: UserId, now: Time)
    requires Valid(s) && HasOpenRecord(s.borrowRecords, bookId, studentId) && HasBook(s.books, bookId)
    ensures var s' := Return(s, bookId, studentId, now);
      var k := BookIndex(s.books, bookId).value;
      var j := OpenRecordIndex(s.borrowRecords, bookId, studentId).value;
      && Valid(s')
      && |s'.books| == |s.books|
      && s'.books[k].quantity == s.books[k].quantity + 1
      && s'.books[k].available
      && s'.books[k].borrowedBy == Without(s.books[k].borrowedBy, studentId)
      && s'.books[k] == s.books[k].(quantity := s'.books[k].quantity, available := true,
                                    borrowedBy := s'.books[k].borrowedBy)
      && (forall i :: 0 <= i < |s.books| && i != k ==> s'.books[i] == s.books[i])
      && |s'.borrowRecords| == |s.borrowRecords|
      && s'.borrowRecords[j] == s.borrowRecords[j].(returnDate := Some(now), returned := true,
                                  lateFee := Some(CalculateLateFee(s.borrowRecords[j].dueDate, now)))
      && (forall i :: 0 <= i < |s.borrowRecords| && i != j ==> s'.borrowRecords[i] == s.borrowRecords[i])
      && s'.users == s.users && s'.currentUser == s.currentUser && s'.notifications == s.notifications
      && s'.nextId == s.nextId
  {
    var k := BookIndex(s.books, bookId).value;
    var j := OpenRecordIndex(s.borrowRecords, bookId, studentId).value;
    assert forall i :: 0 <= i < |s.books| && i != k ==> s.books[i].id != bookId;
    assert forall i :: 0 <= i < |s.borrowRecords| && i != j ==> s.borrowRecords[i].id != s.borrowRecords[j].id;
  }

  /** After a successful borrow by a student with no loan of that book open
      before, the loan just opened is the pair's first open loan. */
  lemma BorrowOpensFirstLoan(s: Library, bookId: Id, studentId: UserId, now: Time)
    requires Valid(s) && HasBook(s.books, bookId) && FindBook(s.books, bookId).value.quantity > 0
    requires !HasOpenRecord(s.borrowRecords, bookId, studentId)
    ensures var s1 := Borrow(s, bookId, studentId, now);
      && Valid(s1)
      && BookIndex(s1.books, bookId) == BookIndex(s.books, bookId)
      && OpenRecordIndex(s1.borrowRecords, bookId, studentId) == Some(|s.borrowRecords|)
  {
    var s1 := Borrow(s, bookId, studentId, now);
    var k := BookIndex(s.books, bookId).value;
    BorrowEffect(s, bookId, studentId, now);
    BookIndexAt(s1.books, k);
    var n := |s.borrowRecords|;
    assert OpenFor(s1.borrowRecords[n], bookId, studentId);
    assert forall i :: 0 <= i < n ==> !OpenFor(s1.borrowRecords[i], bookId, studentId);
  }

  /** Borrow then return, entry by entry: the book's entry comes back with
      its free copies and borrower list, marked available, and no other entry
      changes. */
  lemma RoundTripCatalog(s: Library, bookId: Id, studentId: UserId, borrowedAt: Time, returnedAt: Time)
    requires Valid(s) && HasBook(s.books, bookId)
    requires FindBook(s.books, bookId).value.quantity > 0
    requires studentId !in FindBook(s.books, bookId).value.borrowedBy
    requires !HasOpenRecord(s.borrowRecords, bookId, studentId)
    ensures var s2 := Return(Borrow(s, bookId, studentId, borrowedAt), bookId, studentId, returnedAt);
      var k := BookIndex(s.books, bookId).value;
      && Valid(s2)
      && |s2.books| == |s.books|
      && s2.books[k] == s.books[k].(available := true)
      && forall i :: 0 <= i < |s.books| && i != k ==> s2.books[i] == s.books[i]
  {
    var k := BookIndex(s.books, bookId).value;
    var b := s.books[k];
    var s1 := Borrow(s, bookId, studentId, borrowedAt);
    BorrowEffect(s, bookId, studentId, borrowedAt);
    BorrowOpensFirstLoan(s, bookId, studentId, borrowedAt);
    ReturnEffect(s1, bookId, studentId, returnedAt);
    WithoutAppended(b.borrowedBy, studentId);
  }

  /** Borrowing and then returning, for a pair with no loan open before and a
      student not already listed, gives the book back its free copies and
      borrower list; if the entry was consistent, the catalog is restored. */
  lemma RoundTripRestoresBook(s: Library, bookId: Id, studentId: UserId, borrowedAt: Time, returnedAt: Time)
    requires Valid(s) && HasBook(s.books, bookId)
    requires FindBook(s.books, bookId).value.quantity > 0
    requires studentId !in FindBook(s.books, bookId).value.borrowedBy
    requires !HasOpenRecord(s.borrowRecords, bookId, studentId)
    ensures var s2 := Return(Borrow(s, bookId, studentId, borrowedAt), bookId, studentId, returnedAt);
      var b := FindBook(s.books, bookId).value;
      && FindBook(s2.books, bookId) == Some(b.(available := true))
      && (Consistent(b) ==> s2.books == s.books)
  {
    var k := BookIndex(s.books, bookId).value;
    var s2 := Return(Borrow(s, bookId, studentId, borrowedAt), bookId, studentId, returnedAt);
    RoundTripCatalog(s, bookId, studentId, borrowedAt, returnedAt);
    BookIndexAt(s2.books, k);
  }

  /** The same round trip leaves the pair without an open loan and the ledger
      one closed record longer, owing the fee for the time past due. */
  lemma RoundTripClosesLoan(s: Library, bookId: Id, studentId: UserId, borrowedAt: Time, returnedAt: Time)
    requires Valid(s) && HasBook(s.books, bookId)
    requires FindBook(s.books, bookId).value.quantity > 0
    requires !HasOpenRecord(s.borrowRecords, bookId, studentId)
    ensures var s2 := Return(Borrow(s, bookId, studentId, borrowedAt), bookId, studentId, returnedAt);
      && !HasOpenRecord(s2.borrowRecords, bookId, studentId)
      && s2.borrowRecords == s.borrowRecords + [NewRecord(s.nextId, bookId, studentId, borrowedAt).(
           returnDate := Some(returnedAt), returned := true,
           lateFee := Some(CalculateLateFee(borrowedAt + LOAN_PERIOD, returnedAt)))]
      && s2.notifications == s.notifications && s2.nextId == s.nextId + 1
  {
    var s1 := Borrow(s, bookId, studentId, borrowedAt);
    BorrowEffect(s, bookId, studentId, borrowedAt);
    BorrowOpensFirstLoan(s, bookId, studentId, borrowedAt);
    ReturnEffect(s1, bookId, studentId, returnedAt);
    var s2 := Return(s1, bookId, studentId, returnedAt);
    var n := |s.borrowRecords|;
    assert s2.borrowRecords == s.borrowRecords + [s2.borrowRecords[n]];
    assert forall i :: 0 <= i < n ==> s2.borrowRecords[i] == s.borrowRecords[i];
  }

  /** Two borrows of the same book by the same student, with two copies free,
      both succeed and leave the book where it was in the catalog. */
  lemma BorrowTwice(s: Library, bookId: Id, studentId: UserId, t1: Time, t2: Time)
    requires Valid(s) && HasBook(s.books, bookId) && FindBook(s.books, bookId).value.quantity >= 2
    ensures var s2 := Borrow(Borrow(s, bookId, studentId, t1), bookId, studentId, t2);
      && Valid(s2)
      && |s2.borrowRecords| == |s.borrowRecords| + 2
      && OpenFor(s2.borrowRecords[|s.borrowRecords|], bookId, studentId)
      && OpenFor(s2.borrowRecords[|s.borrowRecords| + 1], bookId, studentId)
      && BookIndex(s2.books, bookId) == BookIndex(s.books, bookId)
  {
    var k := BookIndex(s.books, bookId).value;
    var n := |s.borrowRecords|;
    var s1 := Borrow(s, bookId, studentId, t1);
    BorrowEffect(s, bookId, studentId, t1);
    BookIndexAt(s1.books, k);
    var s2 := Borrow(s1, bookId, studentId, t2);
    BorrowEffect(s1, bookId, studentId, t2);
    BookIndexAt(s2.books, k);
    assert s2.borrowRecords[n] == s1.borrowRecords[n];
  }

  /** Nothing stops a second open loan of the same book by the same student,
      and one return then drops the student from the borrower list while one
      of those loans is still open. */
  lemma DoubleBorrowThenReturn(s: Library, bookId: Id, studentId: UserId, t1: Time, t2: Time, t3: Time)
    requires Valid(s) && HasBook(s.books, bookId) && FindBook(s.books, bookId).value.quantity >= 2
    ensures var s2 := Borrow(Borrow(s, bookId, studentId, t1), bookId, studentId, t2);
      var s3 := Return(s2, bookId, studentId, t3);
      && |s2.borrowRecords| == |s.borrowRecords| + 2
      && OpenFor(s2.borrowRecords[|s.borrowRecords|], bookId, studentId)
      && OpenFor(s2.borrowRecords[|s.borrowRecords| + 1], bookId, studentId)
      && HasOpenRecord(s3.borrowRecords, bookId, studentId)
      && HasBook(s3.books, bookId)
      && studentId !in FindBook(s3.books, bookId).value.borrowedBy
  {
    var k := BookIndex(s.books, bookId).value;
    var n := |s.borrowRecords|;
    var s2 := Borrow(Borrow(s, bookId, studentId, t1), bookId, studentId, t2);
    BorrowTwice(s, bookId, studentId, t1, t2);
    assert OpenFor(s2.borrowRecords[n], bookId, studentId);
    ReturnEffect(s2, bookId, studentId, t3);
    var s3 := Return(s2, bookId, studentId, t3);
    var j := OpenRecordIndex(s2.borrowRecords, bookId, studentId).value;
    var still := if j == n then n + 1 else n;
    assert OpenFor(s3.borrowRecords[still], bookId, studentId);
    BookIndexAt(s3.books, k);
  }

  /** A single free copy: once one student borrows it the book is unavailable
      and another student's borrow changes nothing; the first student's return
      makes it available again with its one free copy. */
  lemma SingleCopyScenario(s: Library, bookId: Id, first: UserId, second: UserId, t1: Time, t2: Time, t3: Time)
    requires Valid(s) && HasBook(s.books, bookId) && FindBook(s.books, bookId).value.quantity == 1
    requires !HasOpenRecord(s.borrowRecords, bookId, first)
    ensures var s1 := Borrow(s, bookId, first, t1);
      var s3 := Return(s1, bookId, first, t3);
      && HasBook(s1.books, bookId) && HasBook(s3.books, bookId)
      && FindBook(s1.books, bookId).value.quantity == 0
      && !FindBook(s1.books, bookId).value.available
      && Borrow(s1, bookId, second, t2) == s1
      && FindBook(s3.books, bookId).value.quantity == 1
      && FindBook(s3.books, bookId).value.available
      && s3.borrowRecords[|s.borrowRecords|].returned
  {
    var k := BookIndex(s.books, bookId).value;
    var s1 := Borrow(s, bookId, first, t1);
    BorrowEffect(s, bookId, first, t1);
    BorrowOpensFirstLoan(s, bookId, first, t1);
    BookIndexAt(s1.books, k);
    ReturnEffect(s1, bookId, first, t3);
    var s3 := Return(s1, bookId, first, t3);
    BookIndexAt(s3.books, k);
  }

  /** Lending and returning keep every entry consistent with non-negative free
      copies, as long as every entry was so before. */
  lemma LendingKeepsStock(s: Library, bookId: Id, studentId: UserId, now: Time)
    requires Valid(s) && Stocked(s.books)
    ensures Stocked(Borrow(s, bookId, studentId, now).books)
    ensures Stocked(Return(s, bookId, studentId, now).books)
  {
    if HasBook(s.books, bookId) {
      if FindBook(s.books, bookId).value.quantity > 0 {
        BorrowEffect(s, bookId, studentId, now);
      }
      if HasOpenRecord(s.borrowRecords, bookId, studentId) {
        ReturnEffect(s, bookId, studentId, now);
      }
    }
  }

  // ---------------------------------------------------------------- late fees

  /** The periodic sweep: refresh the fee of every open, overdue loan. */
  function UpdateLateFees(s: Library, now: Time): (r: Library)
    ensures |r.borrowRecords| == |s.borrowRecords|
    ensures forall i :: 0 <= i < |s.borrowRecords| ==>
      r.borrowRecords[i] == s.borrowRecords[i].(lateFee := r.borrowRecords[i].lateFee)
    ensures r.books == s.books && r.notifications == s.notifications && r.nextId == s.nextId
    ensures r.users == s.users && r.currentUser == s.currentUser
  {
    s.(borrowRecords := SweepLateFees(s.borrowRecords, now))
  }

  lemma UpdateLateFeesKeepsValid(s: Library, now: Time)
    requires Valid(s)
    ensures Valid(UpdateLateFees(s, now))
  {
    var r := SweepLateFees(s.borrowRecords, now);
    assert forall i :: 0 <= i < |r| ==> r[i].id == s.borrowRecords[i].id;
  }

  // ---------------------------------------------------------------- notifications

  /** The notification `SendNotification` appends. */
  function NewNotification(s: Library, userId: UserId, message: Message, kind: NotificationKind, now: Time)
    : (n: Notification)
    ensures n.id == s.nextId && n.userId == userId && n.message == message
    ensures n.timestamp == now && !n.read && n.kind == kind
  {
    Notification(s.nextId, userId, message, now, false, kind)
  }

  /** sendNotification: one unread notification is appended under a fresh
      identifier; nothing else but the counter changes. */
  function SendNotification(s: Library, userId: UserId, message: Message, now: Time, kind: NotificationKind := General)
    : (r: Library)
    ensures |r.notifications| == |s.notifications| + 1 && r.notifications[..|s.notifications|] == s.notifications
    ensures r.notifications[|s.notifications|] == NewNotification(s, userId, message, kind, now)
    ensures r.nextId > s.nextId
    ensures r.books == s.books && r.borrowRecords == s.borrowRecords
    ensures r.users == s.users && r.currentUser == s.currentUser
  {
    s.(notifications := s.notifications + [NewNotification(s, userId, message, kind, now)], nextId := s.nextId + 1)
  }

  /** markNotificationAsRead: only read flags of notifications can change. */
  function MarkNotificationAsRead(s: Library, id: Id): (r: Library)
    ensures |r.notifications| == |s.notifications|
    ensures forall i :: 0 <= i < |s.notifications| ==>
      r.notifications[i] == s.notifications[i].(read := r.notifications[i].read)
    ensures r.books == s.books && r.borrowRecords == s.borrowRecords && r.nextId == s.nextId
    ensures r.users == s.users && r.currentUser == s.currentUser
  {
    s.(notifications := MarkRead(s.notifications, id))
  }

  lemma NotificationsKeepValid(s: Library, userId: UserId, message: Message, kind: NotificationKind, id: Id, now: Time)
    requires Valid(s)
    ensures Valid(SendNotification(s, userId, message, now, kind))
    ensures Valid(MarkNotificationAsRead(s, id))
  {
  }

  /** A reminder sweep over `selected`: one notification per record whose book
      exists, appended in record order. */
  function SendReminders(s: Library, selected: seq<BorrowRecord>, reminder: Reminder, now: Time): (r: Library)
    ensures s.notifications <= r.notifications && |r.notifications| <= |s.notifications| + |selected|
    ensures r.nextId == s.nextId + (|r.notifications| - |s.notifications|)
    ensures r.books == s.books && r.borrowRecords == s.borrowRecords
    ensures r.users == s.users && r.currentUser == s.currentUser
  {
    var notes := ReminderNotes(selected, s.books, reminder, s.nextId, now);
    s.(notifications := s.notifications + notes, nextId := s.nextId + |notes|)
  }

  /** Sweeping one more record is sweeping the others and then sending that
      record's notification, if its book exists. */
  lemma SendRemindersStep(s: Library, selected: seq<BorrowRecord>, record: BorrowRecord, reminder: Reminder, now: Time)
    ensures var t := SendReminders(s, selected, reminder, now);
      SendReminders(s, selected + [record], reminder, now)
      == match FindBook(s.books, record.bookId)
         case None => t
         case Some(b) =>
           SendNotification(t, record.studentId, ReminderMessage(reminder, b.details.title, record.dueDate),
                            now, ReminderKind(reminder))
  {
    var notes := ReminderNotes(selected, s.books, reminder, s.nextId, now);
    ReminderNotesSnoc(selected, record, s.books, reminder, s.nextId, now);
    match FindBook(s.books, record.bookId)
    case None =>
    case Some(b) =>
      var t := SendReminders(s, selected, reminder, now);
      var n := ReminderFor(reminder, record, b, s.nextId + |notes|, now);
      assert AppendReminder(notes, record, s.books, reminder, s.nextId, now) == notes + [n];
      assert n == NewNotification(t, record.studentId, ReminderMessage(reminder, b.details.title, record.dueDate),
                                  ReminderKind(reminder), now);
      assert s.notifications + (notes + [n]) == t.notifications + [n];
  }

  /** sendDueDateReminders: the new state and the number of loans selected,
      which is the number of open loans due within the reminder window and
      bounds the notifications sent. */
  function SendDueDateReminders(s: Library, now: Time): (r: (Library, nat))
    ensures r.1 == |set i: nat | i < |s.borrowRecords| && DueSoon(s.borrowRecords[i], now)|
    ensures s.notifications <= r.0.notifications && |r.0.notifications| <= |s.notifications| + r.1
    ensures r.0.books == s.books && r.0.borrowRecords == s.borrowRecords
  {
    var selected := DueSoonRecords(s.borrowRecords, now);
    (SendReminders(s, selected, DueSoonReminder, now), |selected|)
  }

  /** sendCustomDateReminders, with the local calendar `offset` ms east of UTC. */
  function SendCustomDateReminders(s: Library, target: Time, offset: int, customMessage: Option<string>, now: Time)
    : (r: (Library, nat))
    ensures r.1 == |set i: nat | i < |s.borrowRecords| && DueByDay(s.borrowRecords[i], target, offset)|
    ensures s.notifications <= r.0.notifications && |r.0.notifications| <= |s.notifications| + r.1
    ensures r.0.books == s.books && r.0.borrowRecords == s.borrowRecords
  {
    var selected := DueByRecords(s.borrowRecords, target, offset);
    (SendReminders(s, selected, CustomDateReminder(customMessage), now), |selected|)
  }

  /** A reminder sweep only appends notifications, under fresh identifiers, at
      most as many as records selected and exactly one per selected record
      whose book exists. */
  lemma SendRemindersEffect(s: Library, selected: seq<BorrowRecord>, reminder: Reminder, now: Time)
    requires Valid(s)
    ensures var s' := SendReminders(s, selected, reminder, now);
      var added := |s'.notifications| - |s.notifications|;
      && Valid(s')
      && s'.notifications[..|s.notifications|] == s.notifications
      && 0 <= added <= |selected|
      && added == |Filter(selected, (rec: BorrowRecord) => HasBook(s.books, rec.bookId))|
      && s'.books == s.books && s'.borrowRecords == s.borrowRecords && s'.users == s.users
      && s'.currentUser == s.currentUser
  {
    var s' := SendReminders(s, selected, reminder, now);
    ReminderNotesCount(selected, s.books, reminder, s.nextId, now);
    ReminderNotesFresh(selected, s.books, reminder, s.nextId, now);
    assert s'.notifications[..|s.notifications|] == s.notifications;
  }

  /** Reminders are not deduplicated: a second due-soon sweep at the same
      instant selects the same loans and appends as many notifications again. */
  lemma DueDateRemindersRepeat(s: Library, now: Time)
    requires Valid(s)
    ensures var (s1, c1) := SendDueDateReminders(s, now);
      var (s2, c2) := SendDueDateReminders(s1, now);
      && c1 == c2
      && |s1.notifications| - |s.notifications| <= c1
      && |s2.notifications| - |s1.notifications| == |s1.notifications| - |s.notifications|
  {
    var (s1, c1) := SendDueDateReminders(s, now);
    var selected := DueSoonRecords(s.borrowRecords, now);
    SendRemindersEffect(s, selected, DueSoonReminder, now);
    SendRemindersEffect(s1, selected, DueSoonReminder, now);
  }

  /** Likewise for the custom-date sweep. */
  lemma CustomRemindersRepeat(s: Library, target: Time, offset: int, customMessage: Option<string>, now: Time)
    requires Valid(s)
    ensures var (s1, c1) := SendCustomDateReminders(s, target, offset, customMessage, now);
      var (s2, c2) := SendCustomDateReminders(s1, target, offset, customMessage, now);
      && c1 == c2
      && |s1.notifications| - |s.notifications| <= c1
      && |s2.notifications| - |s1.notifications| == |s1.notifications| - |s.notifications|
  {
    var (s1, c1) := SendCustomDateReminders(s, target, offset, customMessage, now);
    var selected := DueByRecords(s.borrowRecords, target, offset);
    SendRemindersEffect(s, selected, CustomDateReminder(customMessage), now);
    SendRemindersEffect(s1, selected, CustomDateReminder(customMessage), now);
  }
}
