/** The records the lending ledger works on: books, borrow records, directory
    users and notifications. Timestamps are integer milliseconds since the
    epoch; money is integer cents. */
module Types {

  datatype Option<T> = None | Some(value: T)

  /** Identifiers of books, borrow records and notifications. The program mints
      them from the wall clock; here they come from a counter, so they are fresh. */
  type Id = nat

  /** Identifiers of directory users ("student-001"). */
  type UserId = string

  /** Milliseconds since the epoch. */
  type Time = int

  /** The descriptive part of a catalog entry, which the ledger never changes. */
  datatype BookDetails = BookDetails(
    title: string,
    author: string,
    isbn: string,
    category: string,
    description: string,
    coverImage: string,
    publicationYear: int)

  /** A catalog entry. `quantity` counts the copies not lent out; `borrowedBy`
      lists the borrowers, with an absent list standing as the empty one. */
  datatype Book = Book(
    id: Id,
    details: BookDetails,
    available: bool,
    quantity: int,
    borrowedBy: seq<UserId>)

  /** One lending transaction; `lateFee` is in cents. */
  datatype BorrowRecord = BorrowRecord(
    id: Id,
    bookId: Id,
    studentId: UserId,
    borrowDate: Time,
    dueDate: Time,
    returnDate: Option<Time>,
    returned: bool,
    lateFee: Option<nat>)

  datatype Role = Librarian | Student

  /** The identity a session exposes: no credential. */
  datatype User = User(id: UserId, name: string, email: string, role: Role)

  /** A directory entry, which carries the password. */
  datatype AuthUser = AuthUser(id: UserId, name: string, email: string, password: string, role: Role)

  datatype NotificationKind = DueDate | General | Overdue | CustomReminder

  /** Notification text. The program formats titles and dates into a string with
      the browser's locale; the model keeps what the text is built from. */
  datatype Message =
    | Text(text: string)
    | DueReminder(title: string, due: Time)
    | CustomDefault(title: string, due: Time)

  datatype Notification = Notification(
    id: Id,
    userId: UserId,
    message: Message,
    timestamp: Time,
    read: bool,
    kind: NotificationKind)

  /** One row of the librarian's loan overview: the book and the open record
      with its fee recomputed. */
  datatype Loan = Loan(book: Book, borrowRecord: BorrowRecord)
}
