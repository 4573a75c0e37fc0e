/**
 * The account handlers: registration with an emailed code, login behind the
 * email-verification gate, the forgotten-password and code-resend flows,
 * code verification, password reset, user deletion guarded against admin
 * accounts, and the profile update with its list reconciliation.
 *
 * Hashing (`bcrypt.hash`, `bcrypt.compare`), the signed token and the random
 * draw are parameters; mail is not modelled.
 */
module UserController {
  import opened Common
  import opened Store
  import opened UserAccount
  import opened ProfileRows

  /** Some user has this email. */
  predicate HasEmail(us: map<Id, User>, email: string) {
    exists k :: k in us && us[k].email == email
  }

  /** The user with this email (unique in a valid store). */
  ghost function OwnerOf(us: map<Id, User>, email: string): (k: Id)
    requires HasEmail(us, email)
    ensures k in us && us[k].email == email
  {
    var k :| k in us && us[k].email == email; k
  }

  /** `UserRepo.findUser({where: {email}})`. */
  method FindByEmail(db: Db, email: string) returns (found: Option<Id>)
    requires db.Valid()
    ensures found.None? <==> !HasEmail(db.users, email)
    ensures found.Some? ==> found.value in db.users && found.value == OwnerOf(db.users, email)
  {
    if k :| k in db.users && db.users[k].email == email {
      found := Some(k);
    } else {
      found := None;
    }
  }

  // ---------------------------------------------------------------------
  // Registration and login
  // ---------------------------------------------------------------------

  /**
   * The registration validator: an email, a self-service role, a password of
   * at least six characters, a username of at least three and a phone number
   * of 11 to 14 characters when given, lengths counted in UTF-16 code units,
   * and a boolean `rememberMe`, which is required although registration does
   * not store it.  The email format is not checked here.
   */
  predicate RegisterInputValid(email: string, username: Option<string>, roleName: string, password: string,
                               phone: Option<string>, rememberMe: Option<bool>) {
    email != "" && rememberMe.Some? && (roleName == "Student" || roleName == "Instructor") && JsLength(password) >= 6
    && (username.None? || JsLength(username.value) >= 3)
    && (phone.None? || 11 <= JsLength(phone.value) <= 14)
  }

  /** The row registration writes: unverified, holding a fresh code and the username or "". */
  function Registered(email: string, username: Option<string>, roleId: Id, passwordHash: string,
                      phone: Option<string>, code: string, now: int): (u: User)
    ensures u.email == email && u.password == passwordHash && u.roleId == Some(roleId) && u.phone == phone
    ensures !u.emailVerified && u.rememberToken.None?
    ensures OtpAccepted(u, code, now) && !OtpAccepted(u, code, now + OtpLifetimeMs + 1)
    ensures u.profile == map[Username := Str(if username.Some? then username.value else "")]
  {
    User(email, passwordHash, phone, Some(roleId), false, Some(code), Some(now + OtpLifetimeMs), None,
         map[Username := Str(if username.Some? then username.value else "")])
  }

  /**
   * Validates, refuses a taken email, looks the role up by name (a missing
   * role dereferences null: a 500), then creates an unverified user holding a
   * one-minute code.
   */
  method RegisterUser(db: Db, email: string, username: Option<string>, roleName: string, password: string,
                      phone: Option<string>, rememberMe: Option<bool>, random: real, now: int,
                      hash: string -> string)
    returns (r: Response)
    requires db.Valid() && 0.0 <= random < 1.0
    modifies db`users, db`nextUserId
    ensures db.Valid()
    ensures !RegisterInputValid(email, username, roleName, password, phone, rememberMe) ==> r == Invalid
    ensures (RegisterInputValid(email, username, roleName, password, phone, rememberMe) && HasEmail(old(db.users), email))
            ==> r == BadRequest(DuplicateEmail)
    ensures (RegisterInputValid(email, username, roleName, password, phone, rememberMe) && !HasEmail(old(db.users), email)
             && roleName !in db.roles) ==> r == ServerError
    ensures r.Created? <==> (RegisterInputValid(email, username, roleName, password, phone, rememberMe)
                             && !HasEmail(old(db.users), email) && roleName in db.roles)
    ensures !r.Created? ==> db.users == old(db.users)
    ensures r.Created? ==>
              r.id !in old(db.users)
              && db.users == old(db.users)[r.id := Registered(email, username, db.roles[roleName], hash(password),
                                                              phone, OtpCode(random), now)]
  {
    if !RegisterInputValid(email, username, roleName, password, phone, rememberMe) {
      return Invalid;
    }
    var existing := FindByEmail(db, email);
    if existing.Some? {
      return BadRequest(DuplicateEmail);
    }
    if roleName !in db.roles {
      return ServerError;
    }
    var id := db.AddUser(Registered(email, username, db.roles[roleName], hash(password), phone, OtpCode(random), now));
    r := Created(id);
  }

  /** The login validator: an email, a password and a boolean `rememberMe` are all required. */
  predicate LoginInputValid(email: string, password: string, rememberMe: Option<bool>) {
    email != "" && password != "" && rememberMe.Some?
  }

  /**
   * Validates, finds the user by email, refuses an unverified email before
   * looking at the password, then compares the password with the stored hash.
   * With `rememberMe` true the issued token is stored on the user.
   */
  method LoginUser(db: Db, email: string, password: string, rememberMe: Option<bool>,
                   matches: (string, string) -> bool, token: string) returns (r: Response)
    requires db.Valid()
    modifies db`users
    ensures db.Valid()
    ensures !LoginInputValid(email, password, rememberMe) ==> r == Invalid
    ensures LoginInputValid(email, password, rememberMe) && !HasEmail(old(db.users), email) ==> r == Unauthorized
    ensures (LoginInputValid(email, password, rememberMe) && HasEmail(old(db.users), email)
             && !old(db.users)[OwnerOf(old(db.users), email)].emailVerified) ==> r == Forbidden
    ensures (LoginInputValid(email, password, rememberMe) && HasEmail(old(db.users), email)
             && old(db.users)[OwnerOf(old(db.users), email)].emailVerified
             && !matches(password, old(db.users)[OwnerOf(old(db.users), email)].password)) ==> r == Unauthorized
    ensures r == Ok <==> (LoginInputValid(email, password, rememberMe) && HasEmail(old(db.users), email)
                          && old(db.users)[OwnerOf(old(db.users), email)].emailVerified
                          && matches(password, old(db.users)[OwnerOf(old(db.users), email)].password))
    ensures !(r == Ok && rememberMe == Some(true)) ==> db.users == old(db.users)
    ensures r == Ok && rememberMe == Some(true) ==>
              db.users == old(db.users)[OwnerOf(old(db.users), email) :=
                old(db.users)[OwnerOf(old(db.users), email)].(rememberToken := Some(token))]
  {
    if !LoginInputValid(email, password, rememberMe) {
      return Invalid;
    }
    var found := FindByEmail(db, email);
    if found.None? {
      return Unauthorized;
    }
    var k := found.value;
    if !db.users[k].emailVerified {
      return Forbidden;
    }
    if !matches(password, db.users[k].password) {
      return Unauthorized;
    }
    if rememberMe == Some(true) {
      db.PutUser(k, db.users[k].(rememberToken := Some(token)));
    }
    r := Ok;
  }

  // ---------------------------------------------------------------------
  // One-time codes
  // ---------------------------------------------------------------------

  /** Needs an email; unknown users get 401 and unverified ones 403; otherwise a new code is stored. */
  method ForgotPassword(db: Db, email: string, random: real, now: int) returns (r: Response)
    requires db.Valid() && 0.0 <= random < 1.0
    modifies db`users
    ensures db.Valid()
    ensures email == "" ==> r == Invalid
    ensures email != "" && !HasEmail(old(db.users), email) ==> r == Unauthorized
    ensures (email != "" && HasEmail(old(db.users), email)
             && !old(db.users)[OwnerOf(old(db.users), email)].emailVerified) ==> r == Forbidden
    ensures r == Ok <==> (email != "" && HasEmail(old(db.users), email)
                          && old(db.users)[OwnerOf(old(db.users), email)].emailVerified)
    ensures r != Ok ==> db.users == old(db.users)
    ensures r == Ok ==>
              db.users == old(db.users)[OwnerOf(old(db.users), email) :=
                IssueCode(old(db.users)[OwnerOf(old(db.users), email)], OtpCode(random), now)]
  {
    if email == "" {
      return Invalid;
    }
    var found := FindByEmail(db, email);
    if found.None? {
      return Unauthorized;
    }
    var k := found.value;
    if !db.users[k].emailVerified {
      return Forbidden;
    }
    db.PutUser(k, IssueCode(db.users[k], OtpCode(random), now));
    r := Ok;
  }

  /** Needs an email; an unknown user gets 404; otherwise a new code replaces the old one, verified or not. */
  method ResendOtp(db: Db, email: string, random: real, now: int) returns (r: Response)
    requires db.Valid() && 0.0 <= random < 1.0
    modifies db`users
    ensures db.Valid()
    ensures email == "" ==> r == Invalid
    ensures email != "" && !HasEmail(old(db.users), email) ==> r == NotFound(NoUser)
    ensures r == Ok <==> (email != "" && HasEmail(old(db.users), email))
    ensures r != Ok ==> db.users == old(db.users)
    ensures r == Ok ==>
              db.users == old(db.users)[OwnerOf(old(db.users), email) :=
                IssueCode(old(db.users)[OwnerOf(old(db.users), email)], OtpCode(random), now)]
  {
    if email == "" {
      return Invalid;
    }
    var found := FindByEmail(db, email);
    if found.None? {
      return NotFound(NoUser);
    }
    var k := found.value;
    db.PutUser(k, IssueCode(db.users[k], OtpCode(random), now));
    r := Ok;
  }

  /**
   * Needs an email and a code; an unknown user gets 404; a wrong, missing or
   * expired code gets 400.  Otherwise the code is consumed and the email is
   * marked verified.
   */
  method VerifyOtp(db: Db, email: string, otp: string, now: int) returns (r: Response)
    requires db.Valid()
    modifies db`users
    ensures db.Valid()
    ensures (email == "" || otp == "") ==> r == Invalid
    ensures email != "" && otp != "" && !HasEmail(old(db.users), email) ==> r == NotFound(NoUser)
    ensures (email != "" && otp != "" && HasEmail(old(db.users), email)
             && !OtpAccepted(old(db.users)[OwnerOf(old(db.users), email)], otp, now))
            ==> r == BadRequest(InvalidOrExpiredOtp)
    ensures r == Ok <==> (email != "" && otp != "" && HasEmail(old(db.users), email)
                          && OtpAccepted(old(db.users)[OwnerOf(old(db.users), email)], otp, now))
    ensures r != Ok ==> db.users == old(db.users)
    ensures r == Ok ==>
              db.users == old(db.users)[OwnerOf(old(db.users), email) :=
                MarkVerified(old(db.users)[OwnerOf(old(db.users), email)])]
  {
    if email == "" || otp == "" {
      return Invalid;
    }
    var found := FindByEmail(db, email);
    if found.None? {
      return NotFound(NoUser);
    }
    var k := found.value;
    if !OtpAccepted(db.users[k], otp, now) {
      return BadRequest(InvalidOrExpiredOtp);
    }
    db.PutUser(k, MarkVerified(db.users[k]));
    r := Ok;
  }

  /**
   * Needs an email and a new password; an unknown email gets 400.  Otherwise
   * the new hash is stored and any pending code is cleared.  No code is
   * asked for.
   */
  method ResetPassword(db: Db, email: string, newPassword: string, hash: string -> string) returns (r: Response)
    requires db.Valid()
    modifies db`users
    ensures db.Valid()
    ensures (email == "" || newPassword == "") ==> r == Invalid
    ensures email != "" && newPassword != "" && !HasEmail(old(db.users), email) ==> r == BadRequest(UnknownEmail)
    ensures r == Ok <==> (email != "" && newPassword != "" && HasEmail(old(db.users), email))
    ensures r != Ok ==> db.users == old(db.users)
    ensures r == Ok ==>
              db.users == old(db.users)[OwnerOf(old(db.users), email) :=
                SetPassword(old(db.users)[OwnerOf(old(db.users), email)], hash(newPassword))]
  {
    if email == "" || newPassword == "" {
      return Invalid;
    }
    var found := FindByEmail(db, email);
    if found.None? {
      return BadRequest(UnknownEmail);
    }
    var k := found.value;
    db.PutUser(k, SetPassword(db.users[k], hash(newPassword)));
    r := Ok;
  }

  // ---------------------------------------------------------------------
  // Deletion
  // ---------------------------------------------------------------------

  /**
   * Some enrollment names the user as its student, or some comment as its
   * author.  Neither foreign key declares an `onDelete`, so the database
   * refuses to delete such a user.
   */
  predicate Referenced(db: Db, id: Id)
    reads db
  {
    (exists e :: e in db.enrollments && db.enrollments[e].studentId == id)
    || (exists c :: c in db.comments && db.comments[c].userId == id)
  }

  /**
   * A missing user gets 404.  The "Super Admin" and "Admin" roles are then
   * compared in that order; a missing role row is dereferenced (a 500) only
   * when the comparison reaches it.  Admin accounts are refused.  The delete
   * of a user that enrollments or comments still reference throws (a 500);
   * any other user is removed.
   */
  method DeleteUser(db: Db, id: Id) returns (r: Response)
    requires db.Valid()
    modifies db`users
    ensures db.Valid()
    ensures id !in old(db.users) ==> r == NotFound(NoUser)
    ensures id in old(db.users) && "Super Admin" !in db.roles ==> r == ServerError
    ensures (id in old(db.users) && "Super Admin" in db.roles
             && old(db.users)[id].roleId == Some(db.roles["Super Admin"])) ==> r == Forbidden
    ensures (id in old(db.users) && "Super Admin" in db.roles
             && old(db.users)[id].roleId != Some(db.roles["Super Admin"]) && "Admin" !in db.roles) ==> r == ServerError
    ensures (id in old(db.users) && "Super Admin" in db.roles && "Admin" in db.roles
             && old(db.users)[id].roleId == Some(db.roles["Admin"])) ==> r == Forbidden
    ensures (id in old(db.users) && "Super Admin" in db.roles && "Admin" in db.roles
             && old(db.users)[id].roleId != Some(db.roles["Super Admin"])
             && old(db.users)[id].roleId != Some(db.roles["Admin"]) && Referenced(db, id)) ==> r == ServerError
    ensures r == Ok <==> (id in old(db.users) && "Super Admin" in db.roles && "Admin" in db.roles
                          && old(db.users)[id].roleId != Some(db.roles["Super Admin"])
                          && old(db.users)[id].roleId != Some(db.roles["Admin"])
                          && !Referenced(db, id))
    ensures r != Ok ==> db.users == old(db.users)
    ensures r == Ok ==> db.users == old(db.users) - {id}
  {
    if id !in db.users {
      r := NotFound(NoUser);
    } else if "Super Admin" !in db.roles {
      r := ServerError;
    } else if db.users[id].roleId == Some(db.roles["Super Admin"]) {
      r := Forbidden;
    } else if "Admin" !in db.roles {
      r := ServerError;
    } else if db.users[id].roleId == Some(db.roles["Admin"]) {
      r := Forbidden;
    } else if Referenced(db, id) {
      r := ServerError;
    } else {
      db.RemoveUser(id);
      r := Ok;
    }
  }

  // ---------------------------------------------------------------------
  // Profile update
  // ---------------------------------------------------------------------

  /** The EducationalInfo columns an item may set. */
  const EducationColumns: set<string> :=
    {"className", "institutionType", "institutionName", "boardSystem", "passingYear", "isCurrentEducation"}

  /** The Course columns an item may set. */
  const CourseColumns: set<string> :=
    {"courseName", "institutionName", "startDate", "endDate", "certificateUrl", "isCompleted"}

  /**
   * The profile validator on the user columns: names of 1 to 255 characters,
   * a username of 3 to 255, a nullable date (as a number), nullable text for
   * the rest and at most 15 characters for youAre, lengths counted in UTF-16
   * code units.  URL and date formats are not checked here.
   */
  predicate ProfileFieldValid(f: ProfileField, v: Value) {
    match f
    case FirstName => v.Str? && 1 <= JsLength(v.s) <= 255
    case LastName => v.Str? && 1 <= JsLength(v.s) <= 255
    case Username => v.Str? && 3 <= JsLength(v.s) <= 255
    case Dob => v.Null? || v.Num?
    case YouAre => v.Null? || (v.Str? && JsLength(v.s) <= 15)
    case _ => v.Null? || v.Str?
  }

  /**
   * The validator's rule for one column of a list item.  Plain text columns
   * take a non-empty string (no null), `endDate` and `certificateUrl` may
   * also be null or (the URL) empty, years and dates are numbers and the
   * two flags are booleans.
   */
  predicate ItemColumnValid(c: string, v: Value) {
    if c == "passingYear" || c == "startDate" then v.Num?
    else if c == "endDate" then v.Null? || v.Num?
    else if c == "certificateUrl" then v.Null? || v.Str?
    else if c == "isCurrentEducation" || c == "isCompleted" then v.Flag?
    else v.Str? && v.s != ""
  }

  /** An item of a list: only the list's columns, each valid (the id's type is enforced by `Item`). */
  predicate ItemValid(item: Item, columns: set<string>) {
    forall c :: c in item.fields ==> c in columns && ItemColumnValid(c, item.fields[c])
  }

  predicate ListValid(items: seq<Item>, columns: set<string>) {
    forall j :: 0 <= j < |items| ==> ItemValid(items[j], columns)
  }

  /** The whole profile body: the user fields and both lists. */
  predicate ProfileInputValid(given: map<ProfileField, Value>, education: seq<Item>, courses: seq<Item>) {
    (forall f :: f in given ==> ProfileFieldValid(f, given[f]))
    && ListValid(education, EducationColumns) && ListValid(courses, CourseColumns)
  }

  /** The user row after copying the given (defined) fields; every other column is kept. */
  function WithProfile(u: User, given: map<ProfileField, Value>): (r: User)
    ensures forall f :: f in given ==> f in r.profile && r.profile[f] == given[f]
    ensures forall f :: f !in given ==> (f in r.profile <==> f in u.profile)
    ensures forall f :: f !in given && f in u.profile ==> r.profile[f] == u.profile[f]
    ensures r.(profile := u.profile) == u
  {
    u.(profile := u.profile + given)
  }

  /** Some item of a non-empty list creates a row (`!info.id`). */
  predicate CreatesRow(items: seq<Item>) {
    exists j :: 0 <= j < |items| && !NamesRow(items[j])
  }

  /** A list is reconciled only when it is non-empty. */
  function MaybeReconciled(t: Table, userId: Id, items: seq<Item>, columns: set<string>): Table {
    if |items| > 0 then Reconciled(t, userId, items, columns) else t
  }

  /**
   * Validates, copies the defined fields onto the user, then reconciles each
   * non-empty list, all in one transaction.  When the user row is gone and a
   * list creates a row, the insert violates the foreign key and the whole
   * update is rolled back (a 500).
   */
  method UpdateProfile(db: Db, userId: Id, given: map<ProfileField, Value>, education: seq<Item>, courses: seq<Item>)
    returns (r: Response)
    requires db.Valid()
    modifies db`users, db`educationalInfo, db`nextEducationId, db`courses, db`nextCourseId
    ensures db.Valid()
    ensures !ProfileInputValid(given, education, courses) ==> r == Invalid
    ensures (ProfileInputValid(given, education, courses) && userId !in old(db.users) && (CreatesRow(education) || CreatesRow(courses)))
            ==> r == ServerError
    ensures r == Ok <==> (ProfileInputValid(given, education, courses)
                          && (userId in old(db.users) || !(CreatesRow(education) || CreatesRow(courses))))
    ensures r != Ok ==>
              db.users == old(db.users) && db.educationalInfo == old(db.educationalInfo)
              && db.nextEducationId == old(db.nextEducationId)
              && db.courses == old(db.courses) && db.nextCourseId == old(db.nextCourseId)
    ensures r == Ok ==>
              db.users == (if userId in old(db.users) then old(db.users)[userId := WithProfile(old(db.users)[userId], given)]
                           else old(db.users))
    ensures r == Ok ==>
              Table(db.educationalInfo, db.nextEducationId)
                == MaybeReconciled(Table(old(db.educationalInfo), old(db.nextEducationId)), userId, education, EducationColumns)
    ensures r == Ok ==>
              Table(db.courses, db.nextCourseId)
                == MaybeReconciled(Table(old(db.courses), old(db.nextCourseId)), userId, courses, CourseColumns)
  {
    if !ProfileInputValid(given, education, courses) {
      r := Invalid;
    } else if userId !in db.users && (CreatesRow(education) || CreatesRow(courses)) {
      r := ServerError;
    } else {
      CopyProfile(db, userId, given);
      var edu := ReconcileIfGiven(Table(db.educationalInfo, db.nextEducationId), userId, education, EducationColumns);
      var crs := ReconcileIfGiven(Table(db.courses, db.nextCourseId), userId, courses, CourseColumns);
      db.PutProfileTables(edu.rows, edu.next, crs.rows, crs.next);
      r := Ok;
    }
  }

  /**
   * The user step of the profile update: the update runs only when some
   * field is given, and matches no row when the user is gone.
   */
  method CopyProfile(db: Db, userId: Id, given: map<ProfileField, Value>)
    requires db.Valid()
    modifies db`users
    ensures db.Valid()
    ensures db.users == if userId in old(db.users) then old(db.users)[userId := WithProfile(old(db.users)[userId], given)]
                        else old(db.users)
  {
    if userId in db.users && |given| > 0 {
      db.PutUser(userId, WithProfile(db.users[userId], given));
    } else if userId in db.users {
      assert db.users[userId].profile + given == db.users[userId].profile;
    }
  }

  /** One list step of the profile update: reconcile a non-empty list, leave the table alone otherwise. */
  method ReconcileIfGiven(t: Table, userId: Id, items: seq<Item>, columns: set<string>) returns (r: Table)
    requires KeysBelow(t.rows, t.next)
    ensures r == MaybeReconciled(t, userId, items, columns)
    ensures KeysBelow(r.rows, r.next)
  {
    r := t;
    if |items| > 0 {
      ReconcileFrame(t, userId, items, columns);
      r := Reconcile(t, userId, items, columns);
    }
  }

  // ---------------------------------------------------------------------
  // The account lifecycle
  // ---------------------------------------------------------------------

  /** A user cannot log in before verifying: registration stores an unverified row. */
  lemma RegisteredCannotLogIn(email: string, username: Option<string>, roleId: Id, passwordHash: string,
                              phone: Option<string>, code: string, now: int)
    ensures !Registered(email, username, roleId, passwordHash, phone, code, now).emailVerified
  {
  }

  /** Submitting the emailed code within the minute verifies the account, and the code is then spent. */
  lemma RegisterThenVerify(email: string, username: Option<string>, roleId: Id, passwordHash: string,
                           phone: Option<string>, code: string, issuedAt: int, now: int)
    requires issuedAt <= now <= issuedAt + OtpLifetimeMs
    ensures OtpAccepted(Registered(email, username, roleId, passwordHash, phone, code, issuedAt), code, now)
    ensures MarkVerified(Registered(email, username, roleId, passwordHash, phone, code, issuedAt)).emailVerified
    ensures !OtpAccepted(MarkVerified(Registered(email, username, roleId, passwordHash, phone, code, issuedAt)), code, now)
  {
  }
}
