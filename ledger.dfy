/** The borrow ledger: finding the open loan of a (book, student) pair, opening
    and closing records, the periodic late-fee sweep, and the read-only views
    over records joined with the catalog. */
module Ledger {
  import opened Types
  import opened Seqs
  import opened Calendar
  import opened LateFees
  import opened Catalog

  /** A record is an open loan of `bookId` to `studentId`. */
  predicate OpenFor(r: BorrowRecord, bookId: Id, studentId: UserId) {
    r.bookId == bookId && r.studentId == studentId && !r.returned
  }

  predicate HasOpenRecord(records: seq<BorrowRecord>, bookId: Id, studentId: UserId) {
    exists i :: 0 <= i < |records| && OpenFor(records[i], bookId, studentId)
  }

  predicate UniqueRecordIds(records: seq<BorrowRecord>) {
    forall i, j :: 0 <= i < j < |records| ==> records[i].id != records[j].id
  }

  /** The position of the first open loan of `bookId` to `studentId`. */
  function OpenRecordIndex(records: seq<BorrowRecord>, bookId: Id, studentId: UserId): (r: Option<nat>)
    ensures r.None? <==> !HasOpenRecord(records, bookId, studentId)
    ensures r.Some? ==> r.value < |records| && OpenFor(records[r.value], bookId, studentId)
    ensures r.Some? ==> forall j :: 0 <= j < r.value ==> !OpenFor(records[j], bookId, studentId)
  {
    FirstIndex(records, (r: BorrowRecord) => OpenFor(r, bookId, studentId))
  }

  /** The record a borrow at `now` opens: due one loan period later, no fee yet. */
  function NewRecord(id: Id, bookId: Id, studentId: UserId, now: Time): (r: BorrowRecord)
    ensures OpenFor(r, bookId, studentId) && r.id == id
    ensures r.borrowDate == now && r.dueDate == now + LOAN_PERIOD
    ensures r.returnDate == None && r.lateFee == Some(0)
  {
    BorrowRecord(id, bookId, studentId, now, now + LOAN_PERIOD, None, false, Some(0))
  }

  /** The ledger after `found` is returned at `now`: every record carrying
      `found`'s identifier is marked returned at `now`, with the fee owed for
      `found`'s due date. */
  function CloseRecord(records: seq<BorrowRecord>, found: BorrowRecord, now: Time): (r: seq<BorrowRecord>)
    ensures |r| == |records|
    ensures forall i :: 0 <= i < |records| && records[i].id != found.id ==> r[i] == records[i]
    ensures forall i :: 0 <= i < |records| && records[i].id == found.id ==>
      && r[i] == records[i].(returnDate := r[i].returnDate, returned := true, lateFee := r[i].lateFee)
      && r[i].returnDate == Some(now)
      && r[i].lateFee == Some(CalculateLateFee(found.dueDate, now))
      && (r[i].lateFee == Some(0) <==> now <= found.dueDate)
  {
    var fee := CalculateLateFee(found.dueDate, now);
    seq(|records|, i requires 0 <= i < |records| =>
      if records[i].id == found.id
      then records[i].(returnDate := Some(now), returned := true, lateFee := Some(fee))
      else records[i])
  }

  /** One record as the sweep leaves it: an open, overdue loan gets its fee
      recomputed; anything else is left as it is. */
  function RefreshFee(r: BorrowRecord, now: Time): (x: BorrowRecord)
    ensures x == r.(lateFee := x.lateFee)
    ensures r.returned || now <= r.dueDate ==> x == r
    ensures !r.returned && r.dueDate < now ==>
      x.lateFee == Some(CalculateLateFee(r.dueDate, now)) && x.lateFee != Some(0)
  {
    if !r.returned && r.dueDate < now then r.(lateFee := Some(CalculateLateFee(r.dueDate, now))) else r
  }

  /** The periodic late-fee sweep over the whole ledger. */
  function SweepLateFees(records: seq<BorrowRecord>, now: Time): (r: seq<BorrowRecord>)
    ensures |r| == |records|
    ensures forall i :: 0 <= i < |records| ==> r[i] == records[i].(lateFee := r[i].lateFee)
    ensures forall i :: 0 <= i < |records| && (records[i].returned || now <= records[i].dueDate) ==>
      r[i] == records[i]
    ensures forall i :: 0 <= i < |records| && !records[i].returned && records[i].dueDate < now ==>
      r[i].lateFee == Some(CalculateLateFee(records[i].dueDate, now)) && r[i].lateFee != Some(0)
  {
    if records == [] then []
    else [RefreshFee(records[0], now)] + SweepLateFees(records[1..], now)
  }

  /** Running the sweep twice at the same instant changes nothing more. */
  lemma {:induction false} SweepIdempotent(records: seq<BorrowRecord>, now: Time)
    ensures SweepLateFees(SweepLateFees(records, now), now) == SweepLateFees(records, now)
  {
    if records != [] {
      SweepIdempotent(records[1..], now);
    }
  }

  /** The open loans (`borrowRecords.filter(r => !r.returned)`). */
  function OpenRecords(records: seq<BorrowRecord>): (r: seq<BorrowRecord>)
    ensures forall x :: x in r <==> x in records && !x.returned
  {
    Filter(records, (x: BorrowRecord) => !x.returned)
  }

  /** The number of open loans, orphans included. */
  function ActiveLoansCount(records: seq<BorrowRecord>): (n: nat)
    ensures n <= |records|
    ensures n == 0 <==> forall i :: 0 <= i < |records| ==> records[i].returned
    ensures n == |records| <==> forall i :: 0 <= i < |records| ==> !records[i].returned
    ensures n == |set i: nat | i < |records| && !records[i].returned|
  {
    var open := OpenRecords(records);
    FilterCount(records, (x: BorrowRecord) => !x.returned);
    assert Matching(records, (x: BorrowRecord) => !x.returned) == set i: nat | i < |records| && !records[i].returned;
    assert forall i :: 0 <= i < |records| && !records[i].returned ==> records[i] in open;
    assert open != [] ==> open[0] in records;
    |open|
  }

  /** An open loan whose book is still in the catalog. */
  predicate Joinable(r: BorrowRecord, books: seq<Book>) {
    !r.returned && HasBook(books, r.bookId)
  }

  /** The open loans whose book still exists, in ledger order. */
  function JoinableRecords(records: seq<BorrowRecord>, books: seq<Book>): (r: seq<BorrowRecord>)
    ensures forall x :: x in r <==> x in records && Joinable(x, books)
  {
    Filter(records, (x: BorrowRecord) => Joinable(x, books))
  }

  /** The record as the overview shows it: its fee recomputed at `now`. */
  function WithCurrentFee(r: BorrowRecord, now: Time): (x: BorrowRecord)
    ensures x == r.(lateFee := x.lateFee)
    ensures x.lateFee == Some(CalculateLateFee(r.dueDate, now))
    ensures x.lateFee == Some(0) <==> now <= r.dueDate
  {
    r.(lateFee := Some(CalculateLateFee(r.dueDate, now)))
  }

  /** The librarian's overview: each open loan joined with its book and shown
      with its current fee; loans whose book was deleted are dropped. */
  function OpenLoans(records: seq<BorrowRecord>, books: seq<Book>, now: Time): (r: seq<Loan>)
    ensures forall k :: 0 <= k < |r| ==>
      !r[k].borrowRecord.returned && FindBook(books, r[k].borrowRecord.bookId) == Some(r[k].book)
  {
    if records == [] then []
    else
      var rest := OpenLoans(records[1..], books, now);
      var x := records[0];
      if x.returned then rest
      else match FindBook(books, x.bookId)
        case None => rest
        case Some(b) => [Loan(b, WithCurrentFee(x, now))] + rest
  }

  /** The overview is exactly the joinable records, in ledger order, each with
      its book and its fee at `now`. */
  lemma {:induction false} OpenLoansExact(records: seq<BorrowRecord>, books: seq<Book>, now: Time)
    ensures var kept := JoinableRecords(records, books); var r := OpenLoans(records, books, now);
      && |r| == |kept|
      && forall k :: 0 <= k < |r| ==>
           FindBook(books, kept[k].bookId) == Some(r[k].book) && r[k].borrowRecord == WithCurrentFee(kept[k], now)
  {
    if records != [] {
      var x := records[0];
      var tail := records[1..];
      OpenLoansExact(tail, books, now);
      var kept, r := JoinableRecords(tail, books), OpenLoans(tail, books, now);
      if Joinable(x, books) {
        var b := FindBook(books, x.bookId).value;
        assert JoinableRecords(records, books) == [x] + kept;
        assert OpenLoans(records, books, now) == [Loan(b, WithCurrentFee(x, now))] + r;
      } else {
        assert JoinableRecords(records, books) == kept;
        assert OpenLoans(records, books, now) == r;
      }
    }
  }

  /** The overview never lists more loans than are open, and lists all of them
      when no open loan refers to a deleted book. */
  lemma OpenLoansCount(records: seq<BorrowRecord>, books: seq<Book>, now: Time)
    ensures |OpenLoans(records, books, now)| <= ActiveLoansCount(records)
    ensures (forall i :: 0 <= i < |records| && !records[i].returned ==> HasBook(books, records[i].bookId)) ==>
      |OpenLoans(records, books, now)| == ActiveLoansCount(records)
  {
    var joinable := (x: BorrowRecord) => Joinable(x, books);
    var open := (x: BorrowRecord) => !x.returned;
    OpenLoansExact(records, books, now);
    FilterWeaker(records, joinable, open);
    if forall i :: 0 <= i < |records| && !records[i].returned ==> HasBook(books, records[i].bookId) {
      FilterAgree(records, joinable, open);
    }
  }

  /** The identifiers of the books `studentId` holds an open loan of. */
  function BorrowedBookIds(records: seq<BorrowRecord>, studentId: UserId): (ids: seq<Id>)
    ensures forall id :: id in ids <==> HasOpenRecord(records, id, studentId)
  {
    if records == [] then []
    else
      var rest := BorrowedBookIds(records[1..], studentId);
      if records[0].studentId == studentId && !records[0].returned then [records[0].bookId] + rest
      else rest
  }

  /** The catalog entries `studentId` holds an open loan of, in catalog order. */
  function GetBorrowedBooks(records: seq<BorrowRecord>, books: seq<Book>, studentId: UserId): (r: seq<Book>)
    ensures forall b :: b in r <==> b in books && HasOpenRecord(records, b.id, studentId)
    ensures |r| <= |books|
  {
    var ids := BorrowedBookIds(records, studentId);
    Filter(books, (b: Book) => b.id in ids)
  }

  /** An open loan falling due after `now` and no later than the reminder window. */
  predicate DueSoon(r: BorrowRecord, now: Time) {
    !r.returned && now < r.dueDate <= now + REMINDER_WINDOW
  }

  /** The loans the due-soon sweep selects, one per qualifying record, in
      ledger order. */
  function DueSoonRecords(records: seq<BorrowRecord>, now: Time): (r: seq<BorrowRecord>)
    ensures forall x :: x in r <==> x in records && DueSoon(x, now)
    ensures |r| == |set i: nat | i < |records| && DueSoon(records[i], now)|
  {
    var dueSoon := (x: BorrowRecord) => DueSoon(x, now);
    FilterCount(records, dueSoon);
    assert Matching(records, dueSoon) == set i: nat | i < |records| && DueSoon(records[i], now);
    Filter(records, dueSoon)
  }

  /** An open loan due on or before the calendar day of `target`. */
  predicate DueByDay(r: BorrowRecord, target: Time, offset: int) {
    !r.returned && LocalDay(r.dueDate, offset) <= LocalDay(target, offset)
  }

  /** The loans the custom-date sweep selects, one per qualifying record, in
      ledger order. */
  function DueByRecords(records: seq<BorrowRecord>, target: Time, offset: int): (r: seq<BorrowRecord>)
    ensures forall x :: x in r <==> x in records && DueByDay(x, target, offset)
    ensures |r| == |set i: nat | i < |records| && DueByDay(records[i], target, offset)|
  {
    var dueBy := (x: BorrowRecord) => DueByDay(x, target, offset);
    FilterCount(records, dueBy);
    assert Matching(records, dueBy) == set i: nat | i < |records| && DueByDay(records[i], target, offset);
    Filter(records, dueBy)
  }

  /** The selection depends only on the target's calendar day, not its time. */
  lemma DueByIgnoresTimeOfDay(records: seq<BorrowRecord>, target: Time, other: Time, offset: int)
    requires LocalDay(target, offset) == LocalDay(other, offset)
    ensures DueByRecords(records, target, offset) == DueByRecords(records, other, offset)
  {
    FilterAgree(records, (x: BorrowRecord) => DueByDay(x, target, offset),
                (x: BorrowRecord) => DueByDay(x, other, offset));
  }

  /** The day boundary is inclusive, and a later target never selects fewer
      loans: an open loan due at any instant up to the target is selected. */
  lemma DueByIncludesEarlier(records: seq<BorrowRecord>, target: Time, offset: int, r: BorrowRecord)
    requires r in records && !r.returned && r.dueDate <= target
    ensures r in DueByRecords(records, target, offset)
  {
    LocalDayMonotone(r.dueDate, target, offset);
  }
}
