/**
 * The enrollment lifecycle: creating an enrollment together with its
 * progress row, and deleting both.  An enrollment moves from absent to
 * enrolled (with lesson updates and resets in between) and back to absent.
 */
module EnrollmentController {
  import opened Common
  import opened CatalogStore
  import opened ProgressMap
  import opened Store
  import opened ProgressController

  /**
   * `status || "active"`: a missing or empty status becomes "active".  The
   * creation validator already refuses an empty status, so on that path only
   * a missing one is replaced.
   */
  function StatusOrActive(status: Option<string>): (s: string)
    ensures s != ""
    ensures status.Some? && status.value != "" ==> s == status.value
    ensures status.None? || status.value == "" ==> s == "active"
  {
    if status.Some? && status.value != "" then status.value else "active"
  }

  /**
   * The creation validator: `status`, when given, must be a non-empty
   * string (the date is modelled as a number, so its format is not checked
   * here).
   */
  predicate CreateInputValid(status: Option<string>) {
    status != Some("")
  }

  /**
   * Validates the body, then checks student, subcategory and the
   * (student, subcategory) pair in that order and answers the first that
   * fails without writing.  Otherwise
   * writes the enrollment, then a progress row holding a freshly generated
   * map with percentage 0.
   */
  method CreateEnrollment(db: Db, studentId: Id, subcategoryId: Id, status: Option<string>,
                          enrollmentDate: Option<int>, now: int) returns (r: Response)
    requires db.Valid()
    modifies db`enrollments, db`nextEnrollmentId, db`progress
    ensures db.Valid()
    ensures !CreateInputValid(status) ==> r == Invalid
    ensures (CreateInputValid(status) && studentId !in db.users) ==> r == NotFound(NoStudent)
    ensures (CreateInputValid(status) && studentId in db.users && subcategoryId !in db.catalog.subcategories)
            ==> r == NotFound(NoSubcategory)
    ensures (CreateInputValid(status) && studentId in db.users && subcategoryId in db.catalog.subcategories
             && Enrolled(old(db.enrollments), studentId, subcategoryId)) ==> r == Conflict
    ensures r.Created? <==> (CreateInputValid(status) && studentId in db.users
                             && subcategoryId in db.catalog.subcategories
                             && !Enrolled(old(db.enrollments), studentId, subcategoryId))
    ensures !r.Created? ==> db.enrollments == old(db.enrollments) && db.progress == old(db.progress)
    ensures r.Created? ==>
              r.id !in old(db.enrollments)
              && db.enrollments == old(db.enrollments)[r.id := Enrollment(studentId, subcategoryId,
                   StatusOrActive(status), if enrollmentDate.Some? then enrollmentDate.value else now)]
              && db.progress.Keys == old(db.progress).Keys + {r.id}
              && (forall e :: e in old(db.progress) ==> db.progress[e] == old(db.progress)[e])
              && db.progress[r.id].subcategoryId == subcategoryId
              && IsFresh(db.progress[r.id].progress, db.catalog, subcategoryId)
              && db.progress[r.id].completionPercentage == 0.0
              && db.progress[r.id].lastAccessedAt == now
  {
    if !CreateInputValid(status) {
      return Invalid;
    }
    if studentId !in db.users {
      return NotFound(NoStudent);
    }
    if subcategoryId !in db.catalog.subcategories {
      return NotFound(NoSubcategory);
    }
    if e :| e in db.enrollments && db.enrollments[e].studentId == studentId && db.enrollments[e].subcategoryId == subcategoryId {
      return Conflict;
    }
    var date := if enrollmentDate.Some? then enrollmentDate.value else now;
    var id := db.AddEnrollment(Enrollment(studentId, subcategoryId, StatusOrActive(status), date));
    var data := GenerateProgressStructure(db.catalog, subcategoryId);
    FreshLeaves(data, db.catalog, subcategoryId);
    FreshInRange(data, db.catalog, subcategoryId);
    db.PutProgress(id, ProgressRow(subcategoryId, data, 0.0, now));
    r := Created(id);
  }

  /**
   * Fails when the enrollment is missing; otherwise removes its progress row,
   * then the enrollment, and nothing else.
   */
  method DeleteEnrollment(db: Db, id: Id) returns (r: Response)
    requires db.Valid()
    modifies db`enrollments, db`progress
    ensures db.Valid()
    ensures id !in old(db.enrollments) ==> r == NotFound(NoEnrollment)
    ensures id !in old(db.enrollments) ==> db.enrollments == old(db.enrollments) && db.progress == old(db.progress)
    ensures id in old(db.enrollments) ==>
              r == Ok && db.enrollments == old(db.enrollments) - {id} && db.progress == old(db.progress) - {id}
  {
    if id !in db.enrollments {
      return NotFound(NoEnrollment);
    }
    db.RemoveProgress(id);
    db.RemoveEnrollment(id);
    r := Ok;
  }

  /**
   * Deleting the enrollment that holds a (student, subcategory) pair frees
   * the pair, so the duplicate check lets the same pair enroll again.
   */
  lemma DeleteFreesPair(es: map<Id, Enrollment>, id: Id)
    requires PairsUnique(es) && id in es
    ensures !Enrolled(es - {id}, es[id].studentId, es[id].subcategoryId)
    ensures forall st, sc :: Enrolled(es - {id}, st, sc) ==> Enrolled(es, st, sc)
  {
    forall e | e in es - {id}
      ensures es[e].studentId != es[id].studentId || es[e].subcategoryId != es[id].subcategoryId
    {
      assert e != id;
    }
  }

  /**
   * Both places that generate a progress map (enrollment creation and
   * progress reset) produce the same map for the same catalog and
   * subcategory.
   */
  method GeneratorsAgree(cat: Catalog, sc: Id) returns (atCreate: Nested, atReset: Nested)
    ensures atCreate == atReset
    ensures IsFresh(atCreate, cat, sc) && Percentage(atCreate) == 0.0
  {
    atCreate := GenerateProgressStructure(cat, sc);
    atReset := GenerateProgressStructure(cat, sc);
    FreshIsUnique(atCreate, atReset, cat, sc);
    FreshLeaves(atCreate, cat, sc);
  }

  /**
   * Enroll, delete, and enroll the same pair again: the second creation
   * passes the duplicate check.
   */
  method EnrollDeleteReenroll(db: Db, studentId: Id, subcategoryId: Id, now: int) returns (first: Response, second: Response)
    requires db.Valid()
    requires studentId in db.users && subcategoryId in db.catalog.subcategories
    requires !Enrolled(db.enrollments, studentId, subcategoryId)
    modifies db`enrollments, db`nextEnrollmentId, db`progress
    ensures db.Valid()
    ensures first.Created? && second.Created?
    ensures Enrolled(db.enrollments, studentId, subcategoryId)
  {
    first := CreateEnrollment(db, studentId, subcategoryId, None, None, now);
    DeleteFreesPair(db.enrollments, first.id);
    var deleted := DeleteEnrollment(db, first.id);
    second := CreateEnrollment(db, studentId, subcategoryId, None, None, now);
  }
}
