# Library lending ledger and notification engine

This project models the core of the library-connect lending tracker: the
provider in `library-connect/src/context/LibraryContext.tsx` that holds the
catalog (`books`), the borrow ledger (`borrowRecords`), the user directory
(`users`), the session user (`currentUser`) and the notifications. The
record shapes come from `library-connect/src/types/index.ts`.

What the model contains:

- `types.dfy` (module `Types`): the records. Timestamps are integer
  milliseconds and money is integer cents. Identifiers of books, records and
  notifications are naturals.
- `fees.dfy` (modules `Calendar`, `LateFees`): fixed-length days, the local
  calendar day of an instant, and `calculateLateFee` (50 cents per started
  24-hour block past due, nothing up to and including the due instant).
- `seqs.dfy` (module `Seqs`): `find` (as the position of the first match) and
  `filter`, which most queries use. The open-loan overview, the borrowed-book
  ids, marking read and the reminder notifications are recursions of their own.
- `catalog.dfy` (module `Catalog`): lookup by id, whole-record replacement,
  removal, and what lending or taking back a copy does to one catalog entry.
- `ledger.dfy` (module `Ledger`): the first open loan of a (book, student)
  pair, opening and closing records, the late-fee sweep, the open-loan
  overview joined with the catalog, the per-student borrowed books, the
  active-loan count, and the two reminder selections.
- `directory.dfy` (module `Directory`): credential lookup and the student count.
- `notices.dfy` (module `Notices`): marking a notification read, a user's
  inbox newest first, and the notifications a reminder sweep sends.
- `state.dfy` (module `LibraryState`): the whole state as a value and every
  operation as a function from the old state to the new one, with the
  lemmas about borrowing, returning, catalog edits and reminders.
- `context.dfy` (module `LibraryContext`): class `LibraryProvider`, whose
  fields are the held state and whose methods replace it as the `set*`
  updaters do. Except for `Login` and `Logout`, whose postconditions state the
  session change directly, each method's postcondition equates the new state
  with the matching `LibraryState` function of the old one. The two reminder sweeps
  loop over the selected records and send one notification at a time.

"Now" is an explicit parameter of every operation that reads the clock. The
counter `nextId` stands for the `Date.now()` identifiers. The class keeps the
invariant that identifiers are unique and below the counter, so every minted
identifier is fresh.

The model follows the code as written:

- A student may hold two open loans of the same book. Nothing refuses the
  second borrow. `LibraryState.DoubleBorrowThenReturn` shows the result:
  after two borrows and one return, a loan is still open but the student is
  no longer in the borrower list.
- A return removes every occurrence of the student from `borrowedBy`, not
  just the first one.
- Borrowing, returning and deleting fail silently. They return and nothing
  changes. No error value is returned.
- No operation checks the caller's role.
- `addBook` marks a new book available whatever its quantity. `updateBook`
  stores the caller's record as it is. Neither re-establishes
  `available == (quantity > 0)`.

## Model

| member | source | states |
|---|---|---|
| `LateFees.CalculateLateFee` | library-connect/src/context/LibraryContext.tsx:212-222 | the fee is 0 exactly when now is not past the due instant; otherwise it is a multiple of 50 cents whose day count n satisfies (n-1) days < now - due <= n days, so partial days round up |
| `LateFees.LateFeeMonotone` | library-connect/src/context/LibraryContext.tsx:212-222 | for a fixed due date the fee never decreases as now increases |
| `LateFees.LateFeeNextDay` | library-connect/src/context/LibraryContext.tsx:216-221 | once overdue, one more day adds exactly 50 cents |
| `LateFees.LateFeeExamples` | library-connect/src/context/LibraryContext.tsx:216-221 | due == now owes 0; 1 ms late owes 50 cents; 3 days late owes 150 cents |
| `Calendar.StartedDays` | library-connect/src/context/LibraryContext.tsx:218-219 | Math.ceil of the elapsed milliseconds over one day: zero only for zero, otherwise the least n with elapsed <= n days |
| `Calendar.StartedDaysMonotone` | library-connect/src/context/LibraryContext.tsx:218-219 | more elapsed time never gives fewer started days |
| `Calendar.StartedDaysNextDay` | library-connect/src/context/LibraryContext.tsx:218-219 | one more day elapsed gives exactly one more started day |
| `Calendar.LocalDay` | library-connect/src/context/LibraryContext.tsx:453-455 | the day whose local midnight is the last one at or before the instant |
| `Calendar.LocalDayMonotone` | library-connect/src/context/LibraryContext.tsx:453-457 | a later instant never falls on an earlier calendar day |
| `Catalog.BookIndex` | library-connect/src/context/LibraryContext.tsx:260 | the position of the first book with the id, and none exactly when no book has it |
| `Catalog.FindBook` | library-connect/src/context/LibraryContext.tsx:352-354 | getBookById: a book with that id from the catalog, and nothing exactly when no book has that id |
| `Catalog.ReplaceBook` | library-connect/src/context/LibraryContext.tsx:239-241 | the entry with that id becomes the given record, every other entry is kept, the length is kept, and an unknown id changes nothing |
| `Catalog.BookIndexAt` | library-connect/src/context/LibraryContext.tsx:352-354 | with unique ids, the lookup of an entry's id finds that entry |
| `Catalog.RemoveBook` | library-connect/src/context/LibraryContext.tsx:252 | the remaining books are exactly those whose id differs; an unknown id leaves the catalog as it was |
| `Catalog.RemoveBookDropsOne` | library-connect/src/context/LibraryContext.tsx:248-257 | with unique ids, deleting a present id removes exactly one entry |
| `Catalog.RemoveBookSplices` | library-connect/src/context/LibraryContext.tsx:248-257 | with unique ids, deleting a present id cuts exactly that entry out and keeps the others in their order |
| `Catalog.Without` | library-connect/src/context/LibraryContext.tsx:318 | the filtered borrower list does not contain the student and is unchanged when the student was absent |
| `Catalog.WithoutKeepsOthers` | library-connect/src/context/LibraryContext.tsx:318 | every other borrower keeps all of their entries |
| `Catalog.WithoutAppended` | library-connect/src/context/LibraryContext.tsx:276 | appending a student and then filtering that student out is the same as filtering the original list |
| `Catalog.LentCopy` | library-connect/src/context/LibraryContext.tsx:272-277 | one copy fewer, available exactly when copies remain, student appended to borrowedBy, identity and details kept |
| `Catalog.ReturnedCopy` | library-connect/src/context/LibraryContext.tsx:314-319 | one copy more, marked available, the student gone from borrowedBy, identity and details kept |
| `Ledger.OpenRecordIndex` | library-connect/src/context/LibraryContext.tsx:305-307 | the first open record for the (book, student) pair, and none exactly when the pair has no open loan |
| `Ledger.CloseRecord` | library-connect/src/context/LibraryContext.tsx:326-337 | same length; records with the found record's id become returned at now, owing the fee for its due date (0 exactly when returned on time), and no other field changes; every other record is kept |
| `Ledger.SweepLateFees` | library-connect/src/context/LibraryContext.tsx:174-187 | same length and order; only lateFee can change; returned records and records not yet past due are unchanged; each open overdue record gets the fee computed at now, which is never 0 |
| `Ledger.RefreshFee` | library-connect/src/context/LibraryContext.tsx:176-182 | only lateFee can change; a returned or not yet overdue record is unchanged; an open overdue record gets the fee at now, which is not 0 |
| `Ledger.SweepIdempotent` | library-connect/src/context/LibraryContext.tsx:174-187 | sweeping twice at the same instant equals sweeping once |
| `Ledger.OpenRecords` | library-connect/src/context/LibraryContext.tsx:385 | exactly the records not returned |
| `Ledger.ActiveLoansCount` | library-connect/src/context/LibraryContext.tsx:384-386 | the count is the number of records not returned; so it is 0 exactly when every record is returned, and the ledger length exactly when none is |
| `Ledger.JoinableRecords` | library-connect/src/context/LibraryContext.tsx:366-377 | exactly the open records whose book still exists |
| `Ledger.OpenLoans` | library-connect/src/context/LibraryContext.tsx:364-378 | every row is an open record paired with the book its id finds |
| `Ledger.WithCurrentFee` | library-connect/src/context/LibraryContext.tsx:372-375 | only lateFee changes, to the fee at now, which is 0 exactly when the loan is not yet past due |
| `Ledger.OpenLoansExact` | library-connect/src/context/LibraryContext.tsx:364-378 | the overview lists exactly the open records whose book still exists, in ledger order, each with its book and the fee at now |
| `Ledger.OpenLoansCount` | library-connect/src/context/LibraryContext.tsx:364-386 | the overview never lists more rows than the active-loan count, and lists exactly that many when no open loan refers to a deleted book |
| `Ledger.BorrowedBookIds` | library-connect/src/context/LibraryContext.tsx:357-359 | an id is listed exactly when the student has an open loan of it |
| `Ledger.GetBorrowedBooks` | library-connect/src/context/LibraryContext.tsx:356-362 | a catalog entry is listed exactly when the student has an open loan of its id |
| `Ledger.DueSoonRecords` | library-connect/src/context/LibraryContext.tsx:424-431 | exactly the open records with now < due <= now + 3 days, one entry per such record |
| `Ledger.DueByRecords` | library-connect/src/context/LibraryContext.tsx:446-458 | exactly the open records whose due day is on or before the target's day, one entry per such record |
| `Ledger.DueByIgnoresTimeOfDay` | library-connect/src/context/LibraryContext.tsx:450-457 | two targets on the same calendar day select the same records |
| `Ledger.DueByIncludesEarlier` | library-connect/src/context/LibraryContext.tsx:449-457 | an open record due at or before the target instant is selected, so the boundary is inclusive |
| `Directory.Login` | library-connect/src/context/LibraryContext.tsx:196-206 | a session user exists exactly when some entry matches email and password; it is the password-free view of the first match |
| `Directory.StudentCount` | library-connect/src/context/LibraryContext.tsx:380-382 | the number of directory entries with the student role; so at most the directory size, 0 exactly when there is no student, the full size exactly when all are |
| `Notices.MarkRead` | library-connect/src/context/LibraryContext.tsx:403-411 | only read flags change, and a flag ends up set exactly where it was set or the id matches |
| `Notices.MarkReadUnknown` | library-connect/src/context/LibraryContext.tsx:403-411 | an unknown id changes nothing |
| `Notices.Insert` | library-connect/src/context/LibraryContext.tsx:416 | inserting into a newest-first list keeps it newest first and adds exactly that element |
| `Notices.SortNewestFirst` | library-connect/src/context/LibraryContext.tsx:416 | the result is newest first and a permutation of the input |
| `Notices.UserNotifications` | library-connect/src/context/LibraryContext.tsx:413-417 | exactly the user's notifications, each as often as in the list, newest first |
| `Notices.ReminderMessage` | library-connect/src/context/LibraryContext.tsx:464-465 | the due-soon sweep uses its own text; a custom message that is absent or empty falls back to the default; otherwise it is used as given |
| `Notices.AppendReminder` | library-connect/src/context/LibraryContext.tsx:434-439 | one record's step of a sweep: the list gains exactly one entry when the record's book is in the catalog and none otherwise, and what came before is kept |
| `Notices.ReminderNotes` | library-connect/src/context/LibraryContext.tsx:433-440 | a sweep produces at most one notification per selected record |
| `Notices.ReminderNotesSnoc` | library-connect/src/context/LibraryContext.tsx:433-440 | sweeping one more record appends that record's reminder, and nothing else, after the others' |
| `Notices.ReminderNotesFresh` | library-connect/src/context/LibraryContext.tsx:388-398 | every notification of a sweep is unread, stamped now, of the sweep's kind, and numbered consecutively from the counter |
| `Notices.ReminderNotesAddressed` | library-connect/src/context/LibraryContext.tsx:460-470 | each notification is the reminder for a selected record whose book exists, sent to that record's student |
| `Notices.ReminderNotesCount` | library-connect/src/context/LibraryContext.tsx:433-440 | exactly one notification per selected record whose book exists |
| `LibraryState.AddBookEffect` | library-connect/src/context/LibraryContext.tsx:224-236 | the new book is appended under a fresh id, marked available, and is consistent only when its quantity is positive |
| `LibraryState.UpdateBookEffect` | library-connect/src/context/LibraryContext.tsx:238-246 | the entry with that id becomes the given record wholesale, every other entry, the ledger, notifications, directory, session and counter are unchanged, and an unknown id changes nothing |
| `LibraryState.DeleteBookEffect` | library-connect/src/context/LibraryContext.tsx:248-257 | exactly the entry with that id is cut out and the others keep their order; an unknown id changes nothing; ledger, notifications, directory, session and counter are unchanged, so the book's loans become orphans |
| `LibraryState.RemoveKeepsUnique` | library-connect/src/context/LibraryContext.tsx:252 | removing entries keeps ids unique and adds no new entry |
| `LibraryState.AddBook` | library-connect/src/context/LibraryContext.tsx:224-236 | the catalog grows by one entry at its end under the next id, the counter advances, and ledger, notifications, directory and session are unchanged |
| `LibraryState.UpdateBook` | library-connect/src/context/LibraryContext.tsx:238-246 | only the catalog can change, it keeps its length, and an unknown id changes nothing |
| `LibraryState.DeleteBook` | library-connect/src/context/LibraryContext.tsx:248-257 | only the catalog can change; it never grows and no longer holds the id |
| `LibraryState.BorrowRefused` | library-connect/src/context/LibraryContext.tsx:259-270 | borrow leaves the whole state unchanged exactly when the book is unknown or has quantity <= 0 |
| `LibraryState.BorrowEffect` | library-connect/src/context/LibraryContext.tsx:272-296 | the book loses one copy, is available exactly when copies remain, and gains the student in borrowedBy; other books are unchanged; exactly one open record is appended, with a fresh id, due 14 days later and a fee of 0; nothing else changes |
| `LibraryState.ReturnRefused` | library-connect/src/context/LibraryContext.tsx:304-312 | return leaves the state unchanged exactly when the pair has no open loan or the book is gone |
| `LibraryState.ReturnEffect` | library-connect/src/context/LibraryContext.tsx:314-339 | the book gains a copy, becomes available and loses every occurrence of the student; only the pair's first open record changes, to returned at now with the fee for its due date |
| `LibraryState.BorrowOpensFirstLoan` | library-connect/src/context/LibraryContext.tsx:296-307 | after a borrow with no earlier open loan of the pair, the new record is the one a return finds |
| `LibraryState.RoundTripCatalog` | library-connect/src/context/LibraryContext.tsx:272-323 | borrow then return keeps the catalog's length, leaves every other entry as it was, and changes the borrowed entry only by marking it available |
| `LibraryState.RoundTripRestoresBook` | library-connect/src/context/LibraryContext.tsx:272-323 | borrow then return restores the book's quantity and borrowedBy and leaves it available; a consistent catalog comes back unchanged |
| `LibraryState.RoundTripClosesLoan` | library-connect/src/context/LibraryContext.tsx:283-339 | after borrow then return, the pair has no open loan and the ledger holds one more record, closed with the fee for the time past due |
| `LibraryState.BorrowTwice` | library-connect/src/context/LibraryContext.tsx:259-296 | with two free copies, two borrows of the same book by the same student both succeed, each opening a loan, and the book stays at its catalog position |
| `LibraryState.DoubleBorrowThenReturn` | library-connect/src/context/LibraryContext.tsx:259-339 | a second borrow of the same book by the same student opens a second loan; one return then leaves a loan open while the student is gone from borrowedBy |
| `LibraryState.SingleCopyScenario` | library-connect/src/context/LibraryContext.tsx:259-339 | with one copy: after a borrow it is unavailable with 0 copies, a second student's borrow changes nothing, and the return restores 1 copy, available, with the record closed |
| `LibraryState.LendingKeepsStock` | library-connect/src/context/LibraryContext.tsx:272-319 | if every entry has non-negative quantity and available == (quantity > 0), borrowing and returning keep it so |
| `LibraryState.Borrow` | library-connect/src/context/LibraryContext.tsx:259-302 | the catalog keeps its length; the ledger keeps its records and gains at most one, and the counter advances by exactly the number gained; directory, session and notifications are unchanged |
| `LibraryState.Return` | library-connect/src/context/LibraryContext.tsx:304-350 | catalog and ledger keep their lengths and record ids; directory, session, notifications and counter are unchanged |
| `LibraryState.UpdateLateFeesKeepsValid` | library-connect/src/context/LibraryContext.tsx:174-187 | the sweep keeps record ids unique and below the counter |
| `LibraryState.UpdateLateFees` | library-connect/src/context/LibraryContext.tsx:174-187 | only the ledger's late fees can change; every other field of every record and every other part of the state is unchanged |
| `LibraryState.NotificationsKeepValid` | library-connect/src/context/LibraryContext.tsx:388-411 | sending and marking read keep notification ids unique and below the counter |
| `LibraryState.SendNotification` | library-connect/src/context/LibraryContext.tsx:388-401 | exactly one notification is appended, unread, stamped now, under the next id; the counter advances and nothing else changes |
| `LibraryState.MarkNotificationAsRead` | library-connect/src/context/LibraryContext.tsx:403-411 | only read flags of notifications can change |
| `LibraryState.SendReminders` | library-connect/src/context/LibraryContext.tsx:433-440 | notifications are only appended, at most one per selected record, the counter advances by the number appended, and books, ledger, directory and session are unchanged |
| `LibraryState.SendDueDateReminders` | library-connect/src/context/LibraryContext.tsx:419-443 | the count is the number of open loans due after now and within three days; at most that many notifications are appended; books and ledger are unchanged |
| `LibraryState.SendCustomDateReminders` | library-connect/src/context/LibraryContext.tsx:445-473 | the count is the number of open loans due on or before the target's calendar day; at most that many notifications are appended; books and ledger are unchanged |
| `LibraryState.SendRemindersStep` | library-connect/src/context/LibraryContext.tsx:433-440 | sweeping one more record first sweeps the others and then sends that record's reminder if its book exists |
| `LibraryState.SendRemindersEffect` | library-connect/src/context/LibraryContext.tsx:419-473 | a sweep only appends notifications, at most one per selected record and exactly one per selected record whose book exists, and leaves books and ledger alone |
| `LibraryState.DueDateRemindersRepeat` | library-connect/src/context/LibraryContext.tsx:419-443 | a second due-soon sweep at the same instant returns the same count and appends as many notifications again, with no deduplication; notifications added <= count |
| `LibraryState.CustomRemindersRepeat` | library-connect/src/context/LibraryContext.tsx:445-473 | the same for the custom-date sweep |
| `LibraryContext.LibraryProvider.constructor` | library-connect/src/context/LibraryContext.tsx:123-147 | the provider starts from the loaded state |
| `LibraryContext.LibraryProvider.Login` | library-connect/src/context/LibraryContext.tsx:196-206 | returns true exactly when the directory matches, and then sets the session to the password-free user; otherwise nothing changes |
| `LibraryContext.LibraryProvider.Logout` | library-connect/src/context/LibraryContext.tsx:208-210 | clears the session and changes nothing else |
| `LibraryContext.LibraryProvider.AddBook` | library-connect/src/context/LibraryContext.tsx:224-236 | the new state is `LibraryState.AddBook` of the old one |
| `LibraryContext.LibraryProvider.UpdateBook` | library-connect/src/context/LibraryContext.tsx:238-246 | the new state is `LibraryState.UpdateBook` of the old one |
| `LibraryContext.LibraryProvider.DeleteBook` | library-connect/src/context/LibraryContext.tsx:248-257 | the new state is `LibraryState.DeleteBook` of the old one |
| `LibraryContext.LibraryProvider.BorrowBook` | library-connect/src/context/LibraryContext.tsx:259-302 | the new state is `LibraryState.Borrow` of the old one |
| `LibraryContext.LibraryProvider.ReturnBook` | library-connect/src/context/LibraryContext.tsx:304-350 | the new state is `LibraryState.Return` of the old one |
| `LibraryContext.LibraryProvider.UpdateLateFees` | library-connect/src/context/LibraryContext.tsx:174-187 | the ledger becomes the sweep of the old ledger at now |
| `LibraryContext.LibraryProvider.SendNotification` | library-connect/src/context/LibraryContext.tsx:388-401 | appends one unread notification with a fresh id, kind `general` unless given, and returns it |
| `LibraryContext.LibraryProvider.MarkNotificationAsRead` | library-connect/src/context/LibraryContext.tsx:403-411 | the notifications become `Notices.MarkRead` of the old ones |
| `LibraryContext.LibraryProvider.SendAll` | library-connect/src/context/LibraryContext.tsx:433-440 | sending the selected records' reminders one at a time gives `LibraryState.SendReminders` of the old state |
| `LibraryContext.LibraryProvider.SendDueDateReminders` | library-connect/src/context/LibraryContext.tsx:419-443 | new state and returned count are `LibraryState.SendDueDateReminders` of the old state |
| `LibraryContext.LibraryProvider.SendCustomDateReminders` | library-connect/src/context/LibraryContext.tsx:445-473 | new state and returned count are `LibraryState.SendCustomDateReminders` of the old state |

## Left out

- Browser storage: loading state from `localStorage` and writing it back after each change (LibraryContext.tsx:124-171), and turning dates to and from JSON. The constructor takes the loaded state as its argument.
- The 24-hour `setInterval` timer and the React context and provider wiring. `UpdateLateFees` is the timer's body. Comparing the records as JSON before storing them has no visible effect, so it is not modelled.
- `toast` messages and dates formatted with `toLocaleDateString`. Notification text is the `Message` datatype, which holds what the text is built from.
- Floating point: `parseFloat(... toFixed(2))` is exact in integer cents because every fee is a multiple of 50 cents.
- Local-time calendar arithmetic. `setDate(+14)` and `setDate(+3)` are modelled as fixed 86 400 000 ms days, and `setHours(0,0,0,0)` as a fixed-offset local day. Daylight-saving changes are not modelled.
- `Date.now()` identifiers. Fresh identifiers come from a counter. Two operations in the same millisecond could collide in the program; they cannot collide in the model. Book ids are numbers rather than strings.
- `borrowedBy?`: an absent list is modelled as the empty one, since every read uses `|| []`.
- `calculateLateFee` reads the clock itself. In the model, one operation passes the same `now` to every clock read.
- Notices.UserNotifications: does not state that notifications with equal timestamps keep their list order, although the insertion sort is stable like the program's sort.
- Pages, forms (including the validation in `BookForm.tsx`), navigation, route guards and styling. They render and route only, and the core performs no role checks.
