/** Notifications: marking one read, a user's inbox newest first, and the
    notifications a reminder sweep produces. */
module Notices {
  import opened Types
  import opened Seqs
  import opened Catalog

  /** The list after notification `id` is marked read: only read flags change,
      and a flag is set exactly where it was set already or the id matches. */
  function MarkRead(ns: seq<Notification>, id: Id): (r: seq<Notification>)
    ensures |r| == |ns|
    ensures forall i :: 0 <= i < |ns| ==> r[i] == ns[i].(read := r[i].read)
    ensures forall i :: 0 <= i < |ns| ==> (r[i].read <==> ns[i].read || ns[i].id == id)
  {
    if ns == [] then []
    else [if ns[0].id == id then ns[0].(read := true) else ns[0]] + MarkRead(ns[1..], id)
  }

  /** Marking an unknown notification changes nothing. */
  lemma {:induction false} MarkReadUnknown(ns: seq<Notification>, id: Id)
    requires forall i :: 0 <= i < |ns| ==> ns[i].id != id
    ensures MarkRead(ns, id) == ns
  {
    if ns != [] {
      MarkReadUnknown(ns[1..], id);
    }
  }

  /** Newer notifications come first. */
  predicate NewestFirst(s: seq<Notification>) {
    forall i, j :: 0 <= i < j < |s| ==> s[i].timestamp >= s[j].timestamp
  }

  /** A newest-first list stays so under a head that is not older than it. */
  lemma ConsNewestFirst(h: Notification, t: seq<Notification>)
    requires NewestFirst(t) && (t != [] ==> t[0].timestamp <= h.timestamp)
    ensures NewestFirst([h] + t)
  {
    var r := [h] + t;
    forall i, j | 0 <= i < j < |r| ensures r[i].timestamp >= r[j].timestamp {
      if i == 0 {
        assert r[j] == t[j - 1];
      } else {
        assert r[i] == t[i - 1] && r[j] == t[j - 1];
      }
    }
  }

  /** `x` placed into a newest-first list ahead of every entry not newer than it. */
  function Insert(x: Notification, s: seq<Notification>): (r: seq<Notification>)
    requires NewestFirst(s)
    ensures |r| == |s| + 1
    ensures NewestFirst(r)
    ensures multiset(r) == multiset(s) + multiset{x}
    ensures r[0] == x || (s != [] && r[0] == s[0])
  {
    if s == [] || s[0].timestamp <= x.timestamp then
      ConsNewestFirst(x, s);
      [x] + s
    else
      var tail := s[1..];
      assert NewestFirst(tail);
      var rest := Insert(x, tail);
      ConsNewestFirst(s[0], rest);
      assert multiset(s) == multiset{s[0]} + multiset(tail) by {
        assert s == [s[0]] + tail;
      }
      [s[0]] + rest
  }

  /** A stable sort by descending timestamp, as `sort((a, b) => b.timestamp - a.timestamp)`. */
  function SortNewestFirst(s: seq<Notification>): (r: seq<Notification>)
    ensures NewestFirst(r)
    ensures multiset(r) == multiset(s)
  {
    if s == [] then []
    else
      assert s == [s[0]] + s[1..];
      Insert(s[0], SortNewestFirst(s[1..]))
  }

  /** The inbox of `userId`: all of that user's notifications and no others,
      newest first. */
  function UserNotifications(ns: seq<Notification>, userId: UserId): (r: seq<Notification>)
    ensures NewestFirst(r)
    ensures multiset(r) == multiset(Filter(ns, (n: Notification) => n.userId == userId))
    ensures forall n :: n in r <==> n in ns && n.userId == userId
  {
    var mine := Filter(ns, (n: Notification) => n.userId == userId);
    var r := SortNewestFirst(mine);
    assert forall n :: n in mine <==> n in ns && n.userId == userId;
    assert forall n :: n in r <==> n in multiset(mine);
    r
  }

  /** Which reminder sweep is running; the custom one may carry the
      librarian's own text. */
  datatype Reminder = DueSoonReminder | CustomDateReminder(customMessage: Option<string>)

  function ReminderKind(reminder: Reminder): NotificationKind {
    if reminder.DueSoonReminder? then DueDate else CustomReminder
  }

  /** The text of a reminder about `title` due at `due`. A custom message that is
      absent or empty falls back to the generated default. */
  function ReminderMessage(reminder: Reminder, title: string, due: Time): (m: Message)
    ensures reminder == DueSoonReminder ==> m == DueReminder(title, due)
    ensures reminder == CustomDateReminder(None) ==> m == CustomDefault(title, due)
    ensures reminder == CustomDateReminder(Some("")) ==> m == CustomDefault(title, due)
    ensures forall text :: text != "" && reminder == CustomDateReminder(Some(text)) ==> m == Text(text)
  {
    match reminder
    case DueSoonReminder => DueReminder(title, due)
    case CustomDateReminder(custom) =>
      if custom.Some? && custom.value != "" then Text(custom.value) else CustomDefault(title, due)
  }

  /** The notification a sweep sends about `record` of `book`. */
  function ReminderFor(reminder: Reminder, record: BorrowRecord, book: Book, id: Id, now: Time): Notification {
    Notification(id, record.studentId, ReminderMessage(reminder, book.details.title, record.dueDate),
                 now, false, ReminderKind(reminder))
  }

  /** `prior` followed by the reminder about `record`, if its book is in the
      catalog; the reminder takes the next identifier after `prior`'s. */
  function AppendReminder(prior: seq<Notification>, record: BorrowRecord, books: seq<Book>, reminder: Reminder,
                          firstId: Id, now: Time): (r: seq<Notification>)
    ensures |r| == |prior| + (if HasBook(books, record.bookId) then 1 else 0)
    ensures r[..|prior|] == prior
  {
    match FindBook(books, record.bookId)
    case None => prior
    case Some(b) => prior + [ReminderFor(reminder, record, b, firstId + |prior|, now)]
  }

  /** The notifications a sweep appends for the `selected` records, one per
      record whose book is still in the catalog, numbered from `firstId`. */
  function ReminderNotes(selected: seq<BorrowRecord>, books: seq<Book>, reminder: Reminder, firstId: Id, now: Time)
    : (r: seq<Notification>)
    ensures |r| <= |selected|
    decreases |selected|
  {
    if selected == [] then []
    else
      var prior := ReminderNotes(selected[..|selected| - 1], books, reminder, firstId, now);
      AppendReminder(prior, selected[|selected| - 1], books, reminder, firstId, now)
  }

  /** One more selected record adds its reminder at the end, if its book exists. */
  lemma ReminderNotesSnoc(selected: seq<BorrowRecord>, record: BorrowRecord, books: seq<Book>, reminder: Reminder,
                          firstId: Id, now: Time)
    ensures ReminderNotes(selected + [record], books, reminder, firstId, now)
         == AppendReminder(ReminderNotes(selected, books, reminder, firstId, now), record, books, reminder, firstId, now)
  {
    var longer := selected + [record];
    assert longer[..|longer| - 1] == selected;
  }

  /** Every entry of `r` is unread, stamped `now`, of the sweep's kind, and
      the entries are numbered consecutively from `firstId`. */
  predicate FreshFrom(r: seq<Notification>, firstId: Id, reminder: Reminder, now: Time) {
    forall k :: 0 <= k < |r| ==>
      r[k].id == firstId + k && !r[k].read && r[k].timestamp == now && r[k].kind == ReminderKind(reminder)
  }

  /** The notifications a sweep produces are fresh: unread, stamped `now`, of
      the sweep's kind, and numbered consecutively from `firstId`. */
  lemma {:induction false} ReminderNotesFresh(selected: seq<BorrowRecord>, books: seq<Book>, reminder: Reminder,
                                              firstId: Id, now: Time)
    ensures FreshFrom(ReminderNotes(selected, books, reminder, firstId, now), firstId, reminder, now)
    decreases |selected|
  {
    if selected != [] {
      var init := selected[..|selected| - 1];
      var rec := selected[|selected| - 1];
      var prior := ReminderNotes(init, books, reminder, firstId, now);
      ReminderNotesFresh(init, books, reminder, firstId, now);
      match FindBook(books, rec.bookId)
      case None =>
      case Some(b) =>
        var r := ReminderNotes(selected, books, reminder, firstId, now);
        assert r == prior + [ReminderFor(reminder, rec, b, firstId + |prior|, now)];
        forall k | 0 <= k < |r|
          ensures r[k].id == firstId + k && !r[k].read && r[k].timestamp == now && r[k].kind == ReminderKind(reminder)
        {
          if k < |prior| {
            assert r[k] == prior[k];
          }
        }
    }
  }

  /** Each notification is the reminder about some selected record whose book
      exists, addressed to that record's student. */
  lemma {:induction false} ReminderNotesAddressed(selected: seq<BorrowRecord>, books: seq<Book>, reminder: Reminder,
                                                  firstId: Id, now: Time, k: nat)
    requires k < |ReminderNotes(selected, books, reminder, firstId, now)|
    ensures exists rec :: (rec in selected && HasBook(books, rec.bookId)
      && ReminderNotes(selected, books, reminder, firstId, now)[k]
         == ReminderFor(reminder, rec, FindBook(books, rec.bookId).value, firstId + k, now))
    decreases |selected|
  {
    var init := selected[..|selected| - 1];
    var rec := selected[|selected| - 1];
    var prior := ReminderNotes(init, books, reminder, firstId, now);
    if k < |prior| {
      ReminderNotesAddressed(init, books, reminder, firstId, now, k);
      var earlier :| earlier in init && HasBook(books, earlier.bookId)
        && prior[k] == ReminderFor(reminder, earlier, FindBook(books, earlier.bookId).value, firstId + k, now);
      assert earlier in selected;
    } else {
      assert rec in selected;
    }
  }

  /** Exactly one notification per selected record whose book exists, however
      the identifiers are numbered. */
  lemma {:induction false} ReminderNotesCount(selected: seq<BorrowRecord>, books: seq<Book>, reminder: Reminder,
                                              firstId: Id, now: Time)
    ensures |ReminderNotes(selected, books, reminder, firstId, now)|
         == |Filter(selected, (rec: BorrowRecord) => HasBook(books, rec.bookId))|
    decreases |selected|
  {
    if selected != [] {
      var init := selected[..|selected| - 1];
      assert selected == init + [selected[|selected| - 1]];
      ReminderNotesCount(init, books, reminder, firstId, now);
      FilterAppend(init, selected[|selected| - 1], (rec: BorrowRecord) => HasBook(books, rec.bookId));
    }
  }
}
