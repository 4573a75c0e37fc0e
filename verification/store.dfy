/**
 * The relational store the four controllers read and write, as one object
 * whose fields are the tables.  Rows are values; a table is a map from the
 * row's primary key to the row, and each auto-increment key has a counter
 * holding the next id to hand out.  The catalog and the role table are only
 * read by the handlers modelled here.
 */
module Store {
  import opened Common
  import opened CatalogStore
  import opened ProgressMap

  /** A learner's registration into one subcategory (a "class"). */
  datatype Enrollment = Enrollment(studentId: Id, subcategoryId: Id, status: string, enrollmentDate: int)

  /**
   * The completion record of one enrollment.  The Progress table is keyed
   * here by its unique enrollmentId column, so the row's own id is left out.
   */
  datatype ProgressRow = ProgressRow(subcategoryId: Id, progress: Nested, completionPercentage: real, lastAccessedAt: int)

  /** A lesson comment; parentId None is SQL NULL (a top-level comment). */
  datatype Comment = Comment(lessonId: Id, userId: Id, parentId: Option<Id>, content: string)

  /** A JSON/SQL scalar as the profile columns hold it. */
  datatype Value = Null | Str(s: string) | Num(n: int) | Flag(b: bool)

  /** The user columns that updateProfile may copy from the request body. */
  datatype ProfileField =
    | FirstName | LastName | Username | Dob | Gender | ImageUrl | Qualification | Designation | YouAre

  datatype User = User(
    email: string,
    password: string,              // the stored bcrypt hash
    phone: Option<string>,
    roleId: Option<Id>,
    emailVerified: bool,
    resetCode: Option<string>,
    resetCodeExpiresAt: Option<int>, // milliseconds since the epoch
    rememberToken: Option<string>,
    profile: map<ProfileField, Value>)

  /** An EducationalInfo or Course row: its owner and its nullable columns by name. */
  datatype Row = Row(userId: Id, values: map<string, Value>)

  // ---------------------------------------------------------------------
  // Table invariants, stated on values so that lemmas can use them
  // ---------------------------------------------------------------------

  /** The unique index on (studentId, subcategoryId). */
  ghost predicate PairsUnique(es: map<Id, Enrollment>) {
    forall a, b ::
      a in es && b in es && es[a].studentId == es[b].studentId && es[a].subcategoryId == es[b].subcategoryId
      ==> a == b
  }

  /** Some enrollment already holds the (student, subcategory) pair. */
  predicate Enrolled(es: map<Id, Enrollment>, student: Id, sc: Id) {
    exists e :: e in es && es[e].studentId == student && es[e].subcategoryId == sc
  }

  /**
   * Every progress row belongs to an enrollment and copies its subcategory,
   * every leaf is in 0..100, and the stored percentage is the percentage of
   * the stored map.
   */
  ghost predicate ProgressConsistent(es: map<Id, Enrollment>, ps: map<Id, ProgressRow>) {
    forall e :: e in ps ==>
      e in es && ps[e].subcategoryId == es[e].subcategoryId
      && InRange(ps[e].progress)
      && ps[e].completionPercentage == Percentage(ps[e].progress)
  }

  /** Replacing a progress row by a consistent one for the same enrollment keeps the table consistent. */
  lemma ReplaceRowKeepsConsistent(es: map<Id, Enrollment>, ps: map<Id, ProgressRow>, e: Id, row: ProgressRow)
    requires ProgressConsistent(es, ps) && e in es
    requires row.subcategoryId == es[e].subcategoryId
    requires InRange(row.progress) && row.completionPercentage == Percentage(row.progress)
    ensures ProgressConsistent(es, ps[e := row])
  {
  }

  /** Adding an enrollment for a pair nobody holds keeps the pairs unique. */
  lemma AddKeepsPairsUnique(es: map<Id, Enrollment>, id: Id, e: Enrollment)
    requires PairsUnique(es) && id !in es && !Enrolled(es, e.studentId, e.subcategoryId)
    ensures PairsUnique(es[id := e])
  {
    forall o | o in es
      ensures es[o].studentId != e.studentId || es[o].subcategoryId != e.subcategoryId
    {
    }
  }

  /** The comment exists and has no parent. */
  predicate IsTopLevel(cs: map<Id, Comment>, id: Id) {
    id in cs && cs[id].parentId.None?
  }

  /**
   * Replies are one level deep: every comment's parent is NULL, or is a
   * top-level comment on the same lesson.
   */
  ghost predicate ThreadsWellFormed(cs: map<Id, Comment>) {
    forall k :: k in cs && cs[k].parentId.Some? ==>
      IsTopLevel(cs, cs[k].parentId.value) && cs[cs[k].parentId.value].lessonId == cs[k].lessonId
  }

  /**
   * A new comment whose parent, if any, is an existing top-level comment on
   * the same lesson keeps the threads one level deep.
   */
  lemma AddKeepsThreads(cs: map<Id, Comment>, id: Id, c: Comment)
    requires ThreadsWellFormed(cs) && id !in cs
    requires c.parentId.Some? ==> IsTopLevel(cs, c.parentId.value) && cs[c.parentId.value].lessonId == c.lessonId
    ensures ThreadsWellFormed(cs[id := c])
  {
  }

  /** The comments that do not reply to `p`. */
  function WithoutReplies(cs: map<Id, Comment>, p: Id): (r: map<Id, Comment>)
    ensures r.Keys <= cs.Keys
    ensures forall k :: k in cs ==> (k in r <==> cs[k].parentId != Some(p))
    ensures forall k :: k in r ==> r[k] == cs[k]
  {
    map k | k in cs && cs[k].parentId != Some(p) :: cs[k]
  }

  /** The unique constraint on Users.email. */
  ghost predicate EmailsUnique(us: map<Id, User>) {
    forall a, b :: a in us && b in us && us[a].email == us[b].email ==> a == b
  }

  /** Auto-increment keys start at 1 and stay below the next id to hand out. */
  ghost predicate KeysBelow<T>(t: map<Id, T>, next: Id) {
    1 <= next && forall k :: k in t ==> 1 <= k < next
  }

  class Db {
    var catalog: Catalog
    var roles: map<string, Id>        // role name -> role id
    var users: map<Id, User>
    var enrollments: map<Id, Enrollment>
    var progress: map<Id, ProgressRow>  // keyed by enrollmentId
    var comments: map<Id, Comment>
    var educationalInfo: map<Id, Row>
    var courses: map<Id, Row>
    var nextUserId: Id
    var nextEnrollmentId: Id
    var nextCommentId: Id
    var nextEducationId: Id
    var nextCourseId: Id

    /** Every table invariant; each group reads only the fields it constrains. */
    ghost predicate Valid()
      reads this
    {
      UsersValid() && EnrollmentsValid() && ProgressValid() && CommentsValid() && ProfileRowsValid()
    }

    ghost predicate UsersValid()
      reads this`users, this`nextUserId
    {
      KeysBelow(users, nextUserId) && EmailsUnique(users)
    }

    ghost predicate EnrollmentsValid()
      reads this`enrollments, this`nextEnrollmentId
    {
      KeysBelow(enrollments, nextEnrollmentId) && PairsUnique(enrollments)
    }

    ghost predicate ProgressValid()
      reads this`enrollments, this`progress
    {
      ProgressConsistent(enrollments, progress)
    }

    ghost predicate CommentsValid()
      reads this`comments, this`nextCommentId
    {
      KeysBelow(comments, nextCommentId) && ThreadsWellFormed(comments)
    }

    ghost predicate ProfileRowsValid()
      reads this`educationalInfo, this`nextEducationId, this`courses, this`nextCourseId
    {
      KeysBelow(educationalInfo, nextEducationId) && KeysBelow(courses, nextCourseId)
    }

    /** `Progress.update(..., where {enrollmentId})`: replaces one enrollment's progress row. */
    method PutProgress(e: Id, row: ProgressRow)
      requires Valid() && e in enrollments && row.subcategoryId == enrollments[e].subcategoryId
      requires InRange(row.progress) && row.completionPercentage == Percentage(row.progress)
      modifies this`progress
      ensures Valid()
      ensures progress == old(progress)[e := row]
    {
      ReplaceRowKeepsConsistent(enrollments, progress, e, row);
      progress := progress[e := row];
    }

    /** `Enrollment.create`: a new row under the next id; the unique index refuses a taken pair. */
    method AddEnrollment(e: Enrollment) returns (id: Id)
      requires Valid() && !Enrolled(enrollments, e.studentId, e.subcategoryId)
      modifies this`enrollments, this`nextEnrollmentId
      ensures Valid()
      ensures id == old(nextEnrollmentId) && id !in old(enrollments) && id !in progress
      ensures enrollments == old(enrollments)[id := e]
    {
      id := nextEnrollmentId;
      AddKeepsPairsUnique(enrollments, id, e);
      enrollments := enrollments[id := e];
      nextEnrollmentId := nextEnrollmentId + 1;
    }

    /** `Progress.destroy(where {enrollmentId})`: removes the enrollment's progress row, if any. */
    method RemoveProgress(e: Id)
      requires Valid()
      modifies this`progress
      ensures Valid()
      ensures progress == old(progress) - {e}
    {
      progress := progress - {e};
    }

    /** `Enrollment.destroy(where {id})`; the progress foreign key requires its row to be gone first. */
    method RemoveEnrollment(e: Id)
      requires Valid() && e !in progress
      modifies this`enrollments
      ensures Valid()
      ensures enrollments == old(enrollments) - {e}
    {
      enrollments := enrollments - {e};
    }

    /** `LessonComment.create`: a new comment under the next id; the parent foreign key must hold. */
    method AddComment(c: Comment) returns (id: Id)
      requires Valid()
      requires c.parentId.Some? ==> IsTopLevel(comments, c.parentId.value) && comments[c.parentId.value].lessonId == c.lessonId
      modifies this`comments, this`nextCommentId
      ensures Valid()
      ensures id == old(nextCommentId) && id !in old(comments)
      ensures comments == old(comments)[id := c]
    {
      id := nextCommentId;
      AddKeepsThreads(comments, id, c);
      comments := comments[id := c];
      nextCommentId := nextCommentId + 1;
    }

    /** `LessonComment.update({content}, where {id})`: only the text changes. */
    method PutContent(id: Id, content: string)
      requires Valid() && id in comments
      modifies this`comments
      ensures Valid()
      ensures comments == old(comments)[id := old(comments)[id].(content := content)]
    {
      comments := comments[id := comments[id].(content := content)];
    }

    /** `LessonComment.destroy(where {parentId})`: removes every reply to `p`. */
    method RemoveReplies(p: Id)
      requires Valid()
      modifies this`comments
      ensures Valid()
      ensures comments == WithoutReplies(old(comments), p)
    {
      comments := WithoutReplies(comments, p);
    }

    /** `LessonComment.destroy(where {id})`; the parent foreign key refuses while replies remain. */
    method RemoveComment(id: Id)
      requires Valid()
      requires forall k :: k in comments ==> comments[k].parentId != Some(id)
      modifies this`comments
      ensures Valid()
      ensures comments == old(comments) - {id}
    {
      comments := comments - {id};
    }

    /** `User.create`: a new user under the next id; the email must not be taken. */
    method AddUser(u: User) returns (id: Id)
      requires Valid() && forall k :: k in users ==> users[k].email != u.email
      modifies this`users, this`nextUserId
      ensures Valid()
      ensures id == old(nextUserId) && id !in old(users)
      ensures users == old(users)[id := u]
    {
      id := nextUserId;
      users := users[id := u];
      nextUserId := nextUserId + 1;
    }

    /** `user.save()` / `User.update(where {id})` with the email left as it is. */
    method PutUser(id: Id, u: User)
      requires Valid() && id in users && u.email == users[id].email
      modifies this`users
      ensures Valid()
      ensures users == old(users)[id := u]
    {
      users := users[id := u];
    }

    /** `User.destroy(where {id})`. */
    method RemoveUser(id: Id)
      requires Valid()
      modifies this`users
      ensures Valid()
      ensures users == old(users) - {id}
    {
      users := users - {id};
    }

    /** Stores the reconciled EducationalInfo and Course tables with their counters. */
    method PutProfileTables(edu: map<Id, Row>, nextEdu: Id, crs: map<Id, Row>, nextCrs: Id)
      requires Valid() && KeysBelow(edu, nextEdu) && KeysBelow(crs, nextCrs)
      modifies this`educationalInfo, this`nextEducationId, this`courses, this`nextCourseId
      ensures Valid()
      ensures educationalInfo == edu && nextEducationId == nextEdu && courses == crs && nextCourseId == nextCrs
    {
      educationalInfo, nextEducationId, courses, nextCourseId := edu, nextEdu, crs, nextCrs;
    }

    /** An empty store over a given catalog and role table. */
    constructor(catalog: Catalog, roles: map<string, Id>)
      ensures Valid()
      ensures this.catalog == catalog && this.roles == roles
      ensures users == map[] && enrollments == map[] && progress == map[] && comments == map[]
      ensures educationalInfo == map[] && courses == map[]
    {
      this.catalog := catalog;
      this.roles := roles;
      users := map[];
      enrollments := map[];
      progress := map[];
      comments := map[];
      educationalInfo := map[];
      courses := map[];
      nextUserId := 1;
      nextEnrollmentId := 1;
      nextCommentId := 1;
      nextEducationId := 1;
      nextCourseId := 1;
    }
  }
}
