/** `AdminController`: the user list split by role, and the create, update and batch-create
    flows for the user table. */
module Admin {
  import opened Wrappers
  import opened Sequences
  import opened Models
  import opened Flash
  import opened Text
  import opened Validation

  // ---------------------------------------------------------------------------
  // getAllUsers
  // ---------------------------------------------------------------------------

  function Admins(users: seq<User>): seq<User> {
    Filter((u: User) => u.userType == UserType.Admin, users)
  }

  /** Everybody who is neither an administrator nor a candidate. */
  function Employees(users: seq<User>): seq<User> {
    Filter((u: User) => u.userType != UserType.Admin && u.userType != UserType.Candidate, users)
  }

  function Candidates(users: seq<User>): seq<User> {
    Filter((u: User) => u.userType == UserType.Candidate, users)
  }

  /** The three groups of the user list partition it: each group holds exactly the users of
      its role, and together they hold every user exactly as often as the table does. */
  lemma UsersPartition(users: seq<User>)
    ensures forall u :: u in Admins(users) <==> u in users && u.userType == UserType.Admin
    ensures forall u :: u in Employees(users) <==>
      u in users && u.userType != UserType.Admin && u.userType != UserType.Candidate
    ensures forall u :: u in Candidates(users) <==> u in users && u.userType == UserType.Candidate
    ensures multiset(Admins(users)) + multiset(Employees(users)) + multiset(Candidates(users)) == multiset(users)
  {
    FilterMembers((u: User) => u.userType == UserType.Admin, users);
    FilterMembers((u: User) => u.userType != UserType.Admin && u.userType != UserType.Candidate, users);
    FilterMembers((u: User) => u.userType == UserType.Candidate, users);
    FilterMultiset((u: User) => u.userType == UserType.Admin, users);
    FilterMultiset((u: User) => u.userType != UserType.Admin && u.userType != UserType.Candidate, users);
    FilterMultiset((u: User) => u.userType == UserType.Candidate, users);
  }

  // ---------------------------------------------------------------------------
  // Checks shared by createUser and updateUser
  // ---------------------------------------------------------------------------

  /** Why a request was turned away. */
  datatype Rejection = UserNotFound | InvalidEmail | InvalidName | InvalidPassword | DuplicateEmail

  /** The error flash shown for each rejection. */
  function RejectionMessage(r: Rejection): string {
    match r
    case UserNotFound => "User not found."
    case InvalidEmail => "Invalid email format."
    case InvalidName => "First name and last name are required and must be less than 100 characters."
    case InvalidPassword => "Password must be at least 6 characters long."
    case DuplicateEmail => "A user with this email already exists."
  }

  /** The duplicate lookup: some stored user has exactly this e-mail (a case-sensitive
      comparison). */
  function EmailTaken(users: seq<User>, email: string): (taken: bool)
    ensures taken <==> exists u :: u in users && u.email == email
  {
    FindIndex((u: User) => u.email == email, users).Some?
  }

  // ---------------------------------------------------------------------------
  // createUser
  // ---------------------------------------------------------------------------

  datatype CreateForm = CreateForm(
    firstName: string, lastName: string, email: string, password: string, userType: UserType)

  /** The checks of `createUser` in their order: e-mail, both names, password, and a
      duplicate of the sanitized e-mail as typed. The first that fails is reported. */
  function CreateUserCheck(users: seq<User>, form: CreateForm): Option<Rejection> {
    var email := Sanitize(form.email);
    if !IsValidEmail(email) then Some(InvalidEmail)
    else if !(IsValidName(Sanitize(form.firstName)) && IsValidName(Sanitize(form.lastName))) then Some(InvalidName)
    else if !IsValidPassword(form.password) then Some(InvalidPassword)
    else if EmailTaken(users, email) then Some(DuplicateEmail)
    else None
  }

  /** Each rejection of `createUser` happens exactly when its check is the first to fail,
      and the request passes exactly when every check does. */
  lemma CreateUserCheckCases(users: seq<User>, form: CreateForm)
    ensures var r := CreateUserCheck(users, form);
      var email := Sanitize(form.email);
      var namesOk := IsValidName(Sanitize(form.firstName)) && IsValidName(Sanitize(form.lastName));
      && (r == Some(InvalidEmail) <==> !IsValidEmail(email))
      && (r == Some(InvalidName) <==> IsValidEmail(email) && !namesOk)
      && (r == Some(InvalidPassword) <==> IsValidEmail(email) && namesOk && !IsValidPassword(form.password))
      && (r == Some(DuplicateEmail) <==>
            (IsValidEmail(email) && namesOk && IsValidPassword(form.password)
             && exists u :: u in users && u.email == email))
      && (r.None? <==>
            (IsValidEmail(email) && namesOk && IsValidPassword(form.password)
             && forall u :: u in users ==> u.email != email))
  {
  }

  /** The user that a successful `createUser` stores: sanitized names, the sanitized e-mail
      lower-cased, the hash of the password, and the next identifier. */
  function NewUser(id: Id, form: CreateForm, hash: string -> string): User {
    User(id, Sanitize(form.firstName), Sanitize(form.lastName), Lowercased(Sanitize(form.email)),
         hash(form.password), form.userType)
  }

  function CreatedMessage(form: CreateForm): string {
    "User " + Sanitize(form.firstName) + " " + Sanitize(form.lastName) + " created successfully."
  }

  /** `createUser`: on the first failed check, flashes its error and leaves the store alone;
      otherwise saves exactly one new user. The password hash function is a parameter. */
  method CreateUser(db: Database, session: Session, form: CreateForm, hash: string -> string)
    returns (rejection: Option<Rejection>)
    requires db.Valid()
    modifies db, session
    ensures db.Valid()
    ensures rejection == CreateUserCheck(old(db.users), form)
    ensures rejection.Some? ==> (db.users == old(db.users) && db.nextId == old(db.nextId)
      && session.data == WithFlash(old(session.data), Error, RejectionMessage(rejection.value)))
    ensures rejection.None? ==> (db.users == old(db.users) + [NewUser(old(db.nextId), form, hash)]
      && db.nextId == old(db.nextId) + 1
      && session.data == WithFlash(old(session.data), Success, CreatedMessage(form)))
    ensures db.copies == old(db.copies) && db.results == old(db.results)
    ensures db.posts == old(db.posts) && db.secretCodes == old(db.secretCodes)
  {
    rejection := CreateUserCheck(db.users, form);
    if rejection.Some? {
      session.SetFlash(Error, RejectionMessage(rejection.value));
      return;
    }
    db.AddUser(NewUser(db.nextId, form, hash));
    session.SetFlash(Success, CreatedMessage(form));
  }

  /** A successful `createUser` stores a user whose fields pass the checks: both names are
      valid and trimmed, and the stored e-mail is a valid address in lower case. */
  lemma CreatedUserIsWellFormed(users: seq<User>, id: Id, form: CreateForm, hash: string -> string)
    requires CreateUserCheck(users, form).None?
    ensures var u := NewUser(id, form, hash);
      && IsValidName(u.firstName) && IsValidName(u.lastName)
      && Sanitize(u.firstName) == u.firstName && Sanitize(u.lastName) == u.lastName
      && Lowercased(u.email) == u.email && |u.email| == |Sanitize(form.email)|
      && IsValidEmail(u.email)
  {
    SanitizeIdempotent(form.firstName);
    SanitizeIdempotent(form.lastName);
    LowercasedIdempotent(Sanitize(form.email));
    LowercasedEmailValid(Sanitize(form.email));
  }

  /** Lower-casing keeps an address valid: `@`, dots, and the character classes of the
      pattern are each mapped into themselves. */
  lemma LowercasedEmailValid(e: string)
    requires IsValidEmail(e)
    ensures IsValidEmail(Lowercased(e))
  {
    EmailMatcherCorrect(e);
    var at, dot :| EmailShape(e, at, dot);
    var l := Lowercased(e);
    assert EmailShape(l, at, dot);
    EmailMatcherCorrect(l);
  }

  /** The duplicate check compares the e-mail as typed while stored e-mails are lower-cased:
      an address that differs from a stored one only in case is let through, and the table
      then holds two users with the same stored e-mail. */
  lemma CreateUserDuplicateIsCaseSensitive(hash: string -> string)
    ensures var stored := User(0, "Al", "Li", "al@b.cd", hash("secret1"), UserType.Teacher);
      var form := CreateForm("Bo", "Ry", "Al@b.cd", "secret2", UserType.Teacher);
      && CreateUserCheck([stored], form).None?
      && NewUser(1, form, hash).email == stored.email
  {
    var stored := User(0, "Al", "Li", "al@b.cd", hash("secret1"), UserType.Teacher);
    var form := CreateForm("Bo", "Ry", "Al@b.cd", "secret2", UserType.Teacher);
    SampleFormPasses(form);
    assert form.email != stored.email by {
      assert form.email[0] != stored.email[0];
    }
    OnlyOtherEmailStored(stored, form.email);
    SampleEmailLowercased();
  }

  lemma SampleEmailLowercased()
    ensures Lowercased("Al@b.cd") == "al@b.cd"
  {
    var s, t := "Al@b.cd", "al@b.cd";
    forall k | 0 <= k < 7 ensures Lowercased(s)[k] == t[k] {
      if k == 0 { assert s[0] == 'A'; } else { assert s[k] == t[k] && !IsAsciiUpper(s[k]); }
    }
  }

  lemma OnlyOtherEmailStored(stored: User, email: string)
    requires stored.email != email
    ensures !EmailTaken([stored], email)
  {
    assert forall u :: u in [stored] ==> u == stored;
  }

  /** The form of the example above passes the format checks unchanged by trimming. */
  lemma SampleFormPasses(form: CreateForm)
    requires form.firstName == "Bo" && form.lastName == "Ry" && form.email == "Al@b.cd"
    ensures Sanitize(form.email) == form.email && IsValidEmail(form.email)
    ensures Sanitize(form.firstName) == form.firstName && IsValidName(form.firstName)
    ensures Sanitize(form.lastName) == form.lastName && IsValidName(form.lastName)
  {
    TrimOfTrimmed(IsWhitespaceOrNewline, form.email);
    TrimOfTrimmed(IsWhitespaceOrNewline, form.firstName);
    TrimOfTrimmed(IsWhitespaceOrNewline, form.lastName);
    TrimOfTrimmed(IsWhitespace, form.firstName);
    TrimOfTrimmed(IsWhitespace, form.lastName);
    SampleEmailValid();
  }

  lemma SampleEmailValid()
    ensures IsValidEmail("Al@b.cd")
  {
    var s := "Al@b.cd";
    forall k | 0 <= k < 2 ensures IsLocalChar(s[k]) {
      if k == 0 { assert s[0] == 'A'; } else { assert s[1] == 'l'; }
    }
    forall k | 4 < k < 7 ensures IsAsciiLetter(s[k]) {
      if k == 5 { assert s[5] == 'c'; } else { assert s[6] == 'd'; }
    }
    assert s[3] == 'b';
    assert EmailShape(s, 2, 4);
    EmailMatcherCorrect(s);
  }

  // ---------------------------------------------------------------------------
  // updateUser
  // ---------------------------------------------------------------------------

  datatype UpdateForm = UpdateForm(firstName: string, lastName: string, email: string, userType: UserType)

  /** The position of the user with this identifier. */
  function UserIndex(users: seq<User>, userId: Id): Option<nat> {
    FindIndex((u: User) => u.id == userId, users)
  }

  /** The checks of `updateUser` in their order: the user exists, e-mail, both names, and,
      only when the lower-cased new e-mail differs from the lower-cased current one, a
      duplicate of the lower-cased new e-mail. */
  function UpdateUserCheck(users: seq<User>, userId: Id, form: UpdateForm): Option<Rejection> {
    match UserIndex(users, userId)
    case None => Some(UserNotFound)
    case Some(i) =>
      var email := Sanitize(form.email);
      if !IsValidEmail(email) then Some(InvalidEmail)
      else if !(IsValidName(Sanitize(form.firstName)) && IsValidName(Sanitize(form.lastName))) then Some(InvalidName)
      else if Lowercased(email) != Lowercased(users[i].email) && EmailTaken(users, Lowercased(email))
      then Some(DuplicateEmail)
      else None
  }

  /** `updateUser` reports an unknown user exactly when no stored user has the identifier. */
  lemma UpdateUserUnknown(users: seq<User>, userId: Id, form: UpdateForm)
    ensures UpdateUserCheck(users, userId, form) == Some(UserNotFound) <==> forall u :: u in users ==> u.id != userId
  {
  }

  /** For a stored user, each rejection of `updateUser` happens exactly when its check is the
      first to fail; keeping one's own e-mail up to case never counts as a duplicate. */
  lemma UpdateUserCheckCases(users: seq<User>, i: nat, form: UpdateForm)
    requires UniqueKeys(UserKey, users) && i < |users|
    ensures var r := UpdateUserCheck(users, users[i].id, form);
      var email := Sanitize(form.email);
      var namesOk := IsValidName(Sanitize(form.firstName)) && IsValidName(Sanitize(form.lastName));
      var changed := Lowercased(email) != Lowercased(users[i].email);
      && (r == Some(InvalidEmail) <==> !IsValidEmail(email))
      && (r == Some(InvalidName) <==> IsValidEmail(email) && !namesOk)
      && (r == Some(DuplicateEmail) <==>
            (IsValidEmail(email) && namesOk && changed && exists v :: v in users && v.email == Lowercased(email)))
      && (r.None? <==>
            (IsValidEmail(email) && namesOk
             && (!changed || forall v :: v in users ==> v.email != Lowercased(email))))
  {
    var j := UserIndex(users, users[i].id).value;
    assert users[j].id == users[i].id;
  }

  /** The stored user after a successful update: new names, the lower-cased new e-mail and
      the new role; the identifier and the password hash are kept. */
  function UpdatedUser(u: User, form: UpdateForm): User {
    u.(firstName := Sanitize(form.firstName), lastName := Sanitize(form.lastName),
       email := Lowercased(Sanitize(form.email)), userType := form.userType)
  }

  /** The user table after a successful update. */
  function UpdatedUsers(users: seq<User>, userId: Id, form: UpdateForm): seq<User> {
    match UserIndex(users, userId)
    case None => users
    case Some(i) => users[i := UpdatedUser(users[i], form)]
  }

  /** An update rewrites the one user with the identifier, keeping its identifier and its
      password hash, and leaves every other row as it was. */
  lemma UpdateRewritesOnlyThatUser(users: seq<User>, userId: Id, form: UpdateForm)
    requires UniqueKeys(UserKey, users)
    ensures var r := UpdatedUsers(users, userId, form);
      && |r| == |users|
      && (forall k :: 0 <= k < |users| ==>
            r[k] == if users[k].id == userId then UpdatedUser(users[k], form) else users[k])
      && (forall k :: 0 <= k < |users| ==> r[k].id == users[k].id && r[k].passwordHash == users[k].passwordHash)
  {
  }

  /** `updateUser`: on the first failed check, flashes its error and leaves the store alone;
      otherwise rewrites that one user's names, e-mail and role. */
  method UpdateUser(db: Database, session: Session, userId: Id, form: UpdateForm)
    returns (rejection: Option<Rejection>)
    requires db.Valid()
    modifies db, session
    ensures db.Valid()
    ensures rejection == UpdateUserCheck(old(db.users), userId, form)
    ensures rejection.Some? ==> (db.users == old(db.users)
      && session.data == WithFlash(old(session.data), Error, RejectionMessage(rejection.value)))
    ensures rejection.None? ==> (db.users == UpdatedUsers(old(db.users), userId, form)
      && session.data == WithFlash(old(session.data), Success, "User updated successfully."))
    ensures db.copies == old(db.copies) && db.results == old(db.results) && db.nextId == old(db.nextId)
    ensures db.posts == old(db.posts) && db.secretCodes == old(db.secretCodes)
  {
    rejection := UpdateUserCheck(db.users, userId, form);
    if rejection.Some? {
      session.SetFlash(Error, RejectionMessage(rejection.value));
      return;
    }
    var i := UserIndex(db.users, userId).value;
    db.ReplaceUser(i, UpdatedUser(db.users[i], form));
    session.SetFlash(Success, "User updated successfully.");
  }

  /** A user never conflicts with itself: keeping one's e-mail, in any case, passes the
      duplicate check even though the table holds that e-mail. */
  lemma UpdateKeepsOwnEmail(users: seq<User>, i: nat, form: UpdateForm)
    requires UniqueKeys(UserKey, users) && i < |users|
    requires Lowercased(Sanitize(form.email)) == Lowercased(users[i].email)
    requires IsValidEmail(Sanitize(form.email))
    requires IsValidName(Sanitize(form.firstName)) && IsValidName(Sanitize(form.lastName))
    ensures UpdateUserCheck(users, users[i].id, form).None?
  {
    UpdateUserCheckCases(users, i, form);
  }

  // ---------------------------------------------------------------------------
  // batchCreate
  // ---------------------------------------------------------------------------

  /** `usersData.map { try User(context: $0) }`: every row converted, or nothing when one
      conversion fails. The conversion is a parameter. */
  function BuildAll<R>(rows: seq<R>, build: R -> Option<User>): (r: Option<seq<User>>)
    ensures r.Some? <==> forall k :: 0 <= k < |rows| ==> build(rows[k]).Some?
    ensures r.Some? ==> |r.value| == |rows| && forall k :: 0 <= k < |rows| ==> r.value[k] == build(rows[k]).value
  {
    if rows == [] then Some([])
    else match BuildAll(rows[1..], build)
      case None => None
      case Some(rest) =>
        match build(rows[0])
        case None => None
        case Some(u) => Some([u] + rest)
  }

  /** The users as saved, numbered from `start` in order. */
  function Numbered(users: seq<User>, start: Id): seq<User> {
    seq(|users|, k requires 0 <= k < |users| => users[k].(id := start + k))
  }

  /** `batchCreate`: converts every row first; if one conversion fails nothing is saved,
      otherwise the users are saved one after the other, each with a fresh identifier.
      No validation and no duplicate check happen here. */
  method BatchCreate<R>(db: Database, rows: seq<R>, build: R -> Option<User>) returns (saved: bool)
    requires db.Valid()
    modifies db
    ensures db.Valid()
    ensures saved <==> BuildAll(rows, build).Some?
    ensures !saved ==> db.users == old(db.users) && db.nextId == old(db.nextId)
    ensures saved ==> (db.users == old(db.users) + Numbered(BuildAll(rows, build).value, old(db.nextId))
      && db.nextId == old(db.nextId) + |rows|)
    ensures db.copies == old(db.copies) && db.results == old(db.results)
    ensures db.posts == old(db.posts) && db.secretCodes == old(db.secretCodes)
  {
    var built := BuildAll(rows, build);
    if built.None? {
      return false;
    }
    var users := built.value;
    for n := 0 to |users|
      invariant db.Valid()
      invariant db.users == old(db.users) + Numbered(users[..n], old(db.nextId))
      invariant db.nextId == old(db.nextId) + n
      invariant db.copies == old(db.copies) && db.results == old(db.results)
      invariant db.posts == old(db.posts) && db.secretCodes == old(db.secretCodes)
    {
      var user := users[n].(id := db.nextId);
      assert Numbered(users[..n + 1], old(db.nextId)) == Numbered(users[..n], old(db.nextId)) + [user];
      db.AddUser(user);
    }
    assert users[..|users|] == users;
    saved := true;
  }
}
