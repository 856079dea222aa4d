/** The library context: the held state and the operations that replace it.
    Each method does what the corresponding state updaters do, and its
    postcondition ties the new state to the matching function of the old one. */
module LibraryContext {
  import opened Types
  import opened Catalog
  import opened Ledger
  import opened Notices
  import Directory
  import opened LibraryState

  class LibraryProvider {
    var books: seq<Book>
    var borrowRecords: seq<BorrowRecord>
    var users: seq<AuthUser>
    var currentUser: Option<User>
    var notifications: seq<Notification>
    /** The next identifier to mint (the program reads the wall clock). */
    var nextId: Id

    function State(): Library
      reads this
    {
      Library(books, borrowRecords, users, currentUser, notifications, nextId)
    }

    ghost predicate Valid()
      reads this
    {
      LibraryState.Valid(State())
    }

    /** The state as loaded at start-up. */
    constructor (initial: Library)
      requires LibraryState.Valid(initial)
      ensures Valid() && State() == initial
    {
      books := initial.books;
      borrowRecords := initial.borrowRecords;
      users := initial.users;
      currentUser := initial.currentUser;
      notifications := initial.notifications;
      nextId := initial.nextId;
    }

    /** A matching directory entry opens a session without its password; a
        failed login leaves the session as it was. */
    method Login(email: string, password: string) returns (ok: bool)
      requires Valid()
      modifies this
      ensures Valid()
      ensures ok <==> Directory.Login(users, email, password).Some?
      ensures State() == if ok then old(State()).(currentUser := Directory.Login(users, email, password))
                         else old(State())
    {
      var user := Directory.Login(users, email, password);
      if user.Some? {
        currentUser := user;
        return true;
      }
      return false;
    }

    method Logout()
      requires Valid()
      modifies this
      ensures Valid() && State() == old(State()).(currentUser := None)
    {
      currentUser := None;
    }

    // Performs the steps of LibraryState.AddBook on the fields.
    method AddBook(details: BookDetails, quantity: int, borrowedBy: seq<UserId>)
      requires Valid()
      modifies this
      ensures Valid() && State() == LibraryState.AddBook(old(State()), details, quantity, borrowedBy)
    {
      ghost var next := LibraryState.AddBook(State(), details, quantity, borrowedBy);
      AddBookEffect(State(), details, quantity, borrowedBy);
      books := books + [NewBook(nextId, details, quantity, borrowedBy)];
      nextId := nextId + 1;
      assert State() == next;
    }

    // Performs the steps of LibraryState.UpdateBook on the fields.
    method UpdateBook(updated: Book)
      requires Valid()
      modifies this
      ensures Valid() && State() == LibraryState.UpdateBook(old(State()), updated)
    {
      UpdateBookEffect(State(), updated);
      books := ReplaceBook(books, updated.id, updated);
    }

    // Performs the steps of LibraryState.DeleteBook on the fields.
    method DeleteBook(id: Id)
      requires Valid()
      modifies this
      ensures Valid() && State() == LibraryState.DeleteBook(old(State()), id)
    {
      DeleteBookEffect(State(), id);
      var found := FindBook(books, id);
      if found.None? {
        return;
      }
      books := RemoveBook(books, id);
    }

    // Performs the steps of LibraryState.Borrow on the fields.
    method BorrowBook(bookId: Id, studentId: UserId, now: Time)
      requires Valid()
      modifies this
      ensures Valid() && State() == Borrow(old(State()), bookId, studentId, now)
    {
      var found := FindBook(books, bookId);
      if found.None? {
        return;
      }
      var book := found.value;
      if book.quantity <= 0 {
        return;
      }
      BorrowEffect(State(), bookId, studentId, now);
      books := ReplaceBook(books, bookId, LentCopy(book, studentId));
      borrowRecords := borrowRecords + [NewRecord(nextId, bookId, studentId, now)];
      nextId := nextId + 1;
    }

    // Performs the steps of LibraryState.Return on the fields.
    method ReturnBook(bookId: Id, studentId: UserId, now: Time)
      requires Valid()
      modifies this
      ensures Valid() && State() == Return(old(State()), bookId, studentId, now)
    {
      var open := OpenRecordIndex(borrowRecords, bookId, studentId);
      if open.None? {
        return;
      }
      var found := FindBook(books, bookId);
      if found.None? {
        return;
      }
      ReturnEffect(State(), bookId, studentId, now);
      var record := borrowRecords[open.value];
      books := ReplaceBook(books, bookId, ReturnedCopy(found.value, studentId));
      borrowRecords := CloseRecord(borrowRecords, record, now);
    }

    /** The body of the daily timer; performs LibraryState.UpdateLateFees on the fields. */
    method UpdateLateFees(now: Time)
      requires Valid()
      modifies this
      ensures Valid() && State() == LibraryState.UpdateLateFees(old(State()), now)
    {
      UpdateLateFeesKeepsValid(State(), now);
      borrowRecords := SweepLateFees(borrowRecords, now);
    }

    // Performs the steps of LibraryState.SendNotification on the fields.
    method SendNotification(userId: UserId, message: Message, now: Time, kind: NotificationKind := General)
      returns (n: Notification)
      requires Valid()
      modifies this
      ensures Valid() && State() == LibraryState.SendNotification(old(State()), userId, message, now, kind)
      ensures n == NewNotification(old(State()), userId, message, kind, now)
    {
      NotificationsKeepValid(State(), userId, message, kind, 0, now);
      n := Notification(nextId, userId, message, now, false, kind);
      notifications := notifications + [n];
      nextId := nextId + 1;
    }

    // Performs the steps of LibraryState.MarkNotificationAsRead on the fields.
    method MarkNotificationAsRead(id: Id)
      requires Valid()
      modifies this
      ensures Valid() && State() == LibraryState.MarkNotificationAsRead(old(State()), id)
    {
      NotificationsKeepValid(State(), "", Text(""), General, id, 0);
      notifications := MarkRead(notifications, id);
    }

    /** One notification per selected record whose book exists, sent one at a
        time in record order. */
    method SendAll(selected: seq<BorrowRecord>, reminder: Reminder, now: Time)
      requires Valid()
      modifies this
      ensures Valid() && State() == SendReminders(old(State()), selected, reminder, now)
    {
      ghost var start := State();
      var i := 0;
      while i < |selected|
        invariant 0 <= i <= |selected|
        invariant Valid()
        invariant State() == SendReminders(start, selected[..i], reminder, now)
      {
        var record := selected[i];
        assert selected[..i + 1] == selected[..i] + [record];
        SendRemindersStep(start, selected[..i], record, reminder, now);
        assert books == start.books;
        var found := FindBook(books, record.bookId);
        if found.Some? {
          var message := ReminderMessage(reminder, found.value.details.title, record.dueDate);
          var _ := SendNotification(record.studentId, message, now, ReminderKind(reminder));
        }
        i := i + 1;
      }
      assert selected[..i] == selected;
    }

    // Performs the steps of LibraryState.SendDueDateReminders on the fields.
    method SendDueDateReminders(now: Time) returns (count: nat)
      requires Valid()
      modifies this
      ensures Valid() && (State(), count) == LibraryState.SendDueDateReminders(old(State()), now)
    {
      var upcoming := DueSoonRecords(borrowRecords, now);
      SendAll(upcoming, DueSoonReminder, now);
      count := |upcoming|;
    }

    /** Performs the steps of LibraryState.SendCustomDateReminders on the
        fields. `offset` places the local calendar that decides which day
        `target` and each due date fall on. */
    method SendCustomDateReminders(target: Time, offset: int, customMessage: Option<string>, now: Time)
      returns (count: nat)
      requires Valid()
      modifies this
      ensures Valid()
      ensures (State(), count) == LibraryState.SendCustomDateReminders(old(State()), target, offset, customMessage, now)
    {
      var upcoming := DueByRecords(borrowRecords, target, offset);
      SendAll(upcoming, CustomDateReminder(customMessage), now);
      count := |upcoming|;
    }
  }
}
