/** The user directory: credential lookup for login, and the student count. */
module Directory {
  import opened Types
  import opened Seqs

  /** The session identity of a directory entry: everything but the password. */
  function SafeUser(a: AuthUser): User {
    User(a.id, a.name, a.email, a.role)
  }

  predicate Matches(a: AuthUser, email: string, password: string) {
    a.email == email && a.password == password
  }

  /** The identity a login with `email` and `password` opens: that of the first
      entry whose email and password both match exactly, if there is one. */
  function Login(users: seq<AuthUser>, email: string, password: string): (r: Option<User>)
    ensures r.None? <==> forall i :: 0 <= i < |users| ==> !Matches(users[i], email, password)
    ensures r.Some? ==>
      exists i :: (0 <= i < |users| && Matches(users[i], email, password) && r.value == SafeUser(users[i])
                   && forall j :: 0 <= j < i ==> !Matches(users[j], email, password))
  {
    match FirstIndex(users, (a: AuthUser) => Matches(a, email, password))
    case None => None
    case Some(k) => Some(SafeUser(users[k]))
  }

  /** The number of directory entries with the student role. */
  function StudentCount(users: seq<AuthUser>): (n: nat)
    ensures n <= |users|
    ensures n == 0 <==> forall i :: 0 <= i < |users| ==> users[i].role != Student
    ensures n == |users| <==> forall i :: 0 <= i < |users| ==> users[i].role == Student
    ensures n == |set i: nat | i < |users| && users[i].role == Student|
  {
    var isStudent := (u: AuthUser) => u.role == Student;
    var students := Filter(users, isStudent);
    FilterCount(users, isStudent);
    assert Matching(users, isStudent) == set i: nat | i < |users| && users[i].role == Student;
    assert forall i :: 0 <= i < |users| && users[i].role == Student ==> users[i] in students;
    assert students != [] ==> students[0] in students && students[0] in users;
    |students|
  }
}
