/**
 * Lesson discussions: top-level comments and one level of replies.  The
 * handlers create, edit and delete comments on behalf of the signed-in
 * caller; listing returns the top-level comments of a lesson, each with
 * its replies.
 */
module LessonCommentController {
  import opened Common
  import opened CatalogStore
  import opened Store

  /** The validator's rule for comment text: required, 1 to 5000 UTF-16 code units. */
  predicate ValidContent(content: string) {
    1 <= JsLength(content) <= 5000
  }

  /**
   * The bound is on code units, not characters: 2501 emoji already exceed
   * it, so such a comment is refused although it has fewer than 5000
   * characters.
   */
  lemma LongAstralCommentRefused(content: string)
    requires |content| >= 2501
    requires forall i :: 0 <= i < |content| ==> content[i] as int >= 0x1_0000
    ensures !ValidContent(content)
  {
    JsLengthOfAstral(content);
  }

  /** A truthy parent id: the reply checks run only for these (0 is falsy). */
  predicate Replying(parentId: Option<Id>) {
    parentId.Some? && parentId.value != 0
  }

  /**
   * Validates the text, checks the lesson, and for a reply checks that the
   * parent exists, is top-level and is on the same lesson.  The insert then
   * fails (a 500) when the caller's row or the parent row is missing, which
   * is what a parentId of 0 leads to.  Otherwise the comment is added under
   * a new id and nothing else changes.
   */
  method CreateComment(db: Db, callerId: Id, lessonId: Id, parentId: Option<Id>, content: string)
    returns (r: Response)
    requires db.Valid()
    modifies db`comments, db`nextCommentId
    ensures db.Valid()
    ensures !ValidContent(content) ==> r == Invalid
    ensures ValidContent(content) && lessonId !in db.catalog.lessons ==> r == NotFound(NoLesson)
    ensures (ValidContent(content) && lessonId in db.catalog.lessons && Replying(parentId)
             && parentId.value !in old(db.comments)) ==> r == NotFound(NoParentComment)
    ensures (ValidContent(content) && lessonId in db.catalog.lessons && Replying(parentId)
             && parentId.value in old(db.comments) && old(db.comments)[parentId.value].parentId.Some?)
            ==> r == BadRequest(ReplyToReply)
    ensures (ValidContent(content) && lessonId in db.catalog.lessons && Replying(parentId)
             && IsTopLevel(old(db.comments), parentId.value)
             && old(db.comments)[parentId.value].lessonId != lessonId) ==> r == BadRequest(ParentOnOtherLesson)
    ensures (ValidContent(content) && lessonId in db.catalog.lessons
             && (callerId !in db.users || parentId == Some(0))
             && (!Replying(parentId) || (IsTopLevel(old(db.comments), parentId.value)
                                         && old(db.comments)[parentId.value].lessonId == lessonId)))
            ==> r == ServerError
    ensures r.Created? <==>
              (ValidContent(content) && lessonId in db.catalog.lessons && callerId in db.users
               && (parentId.None? || (Replying(parentId) && IsTopLevel(old(db.comments), parentId.value)
                                      && old(db.comments)[parentId.value].lessonId == lessonId)))
    ensures !r.Created? ==> db.comments == old(db.comments)
    ensures r.Created? ==>
              r.id !in old(db.comments)
              && db.comments == old(db.comments)[r.id := Comment(lessonId, callerId, parentId, content)]
  {
    if !ValidContent(content) {
      return Invalid;
    }
    if lessonId !in db.catalog.lessons {
      return NotFound(NoLesson);
    }
    if Replying(parentId) {
      var p := parentId.value;
      if p !in db.comments {
        return NotFound(NoParentComment);
      }
      if db.comments[p].parentId.Some? {
        return BadRequest(ReplyToReply);
      }
      if db.comments[p].lessonId != lessonId {
        return BadRequest(ParentOnOtherLesson);
      }
    }
    if callerId !in db.users || (parentId.Some? && parentId.value !in db.comments) {
      return ServerError;
    }
    var id := db.AddComment(Comment(lessonId, callerId, parentId, content));
    r := Created(id);
  }

  /** Validates the text; only the author may edit, and only the text changes. */
  method UpdateComment(db: Db, callerId: Id, id: Id, content: string) returns (r: Response)
    requires db.Valid()
    modifies db`comments
    ensures db.Valid()
    ensures !ValidContent(content) ==> r == Invalid
    ensures ValidContent(content) && id !in old(db.comments) ==> r == NotFound(NoComment)
    ensures (ValidContent(content) && id in old(db.comments) && old(db.comments)[id].userId != callerId)
            ==> r == Forbidden
    ensures r == Ok <==> (ValidContent(content) && id in old(db.comments) && old(db.comments)[id].userId == callerId)
    ensures r != Ok ==> db.comments == old(db.comments)
    ensures r == Ok ==> db.comments == old(db.comments)[id := old(db.comments)[id].(content := content)]
  {
    if !ValidContent(content) {
      r := Invalid;
    } else if id !in db.comments {
      r := NotFound(NoComment);
    } else if db.comments[id].userId != callerId {
      r := Forbidden;
    } else {
      db.PutContent(id, content);
      r := Ok;
    }
  }

  /**
   * The author or an admin may delete.  Deleting a top-level comment first
   * deletes its replies; deleting a reply removes only the reply.
   */
  method DeleteComment(db: Db, callerId: Id, callerIsAdmin: bool, id: Id) returns (r: Response)
    requires db.Valid()
    modifies db`comments
    ensures db.Valid()
    ensures id !in old(db.comments) ==> r == NotFound(NoComment)
    ensures (id in old(db.comments) && old(db.comments)[id].userId != callerId && !callerIsAdmin) ==> r == Forbidden
    ensures r == Ok <==> (id in old(db.comments) && (old(db.comments)[id].userId == callerId || callerIsAdmin))
    ensures r != Ok ==> db.comments == old(db.comments)
    ensures r == Ok && IsTopLevel(old(db.comments), id) ==> db.comments == WithoutReplies(old(db.comments), id) - {id}
    ensures r == Ok && !IsTopLevel(old(db.comments), id) ==> db.comments == old(db.comments) - {id}
  {
    if id !in db.comments {
      return NotFound(NoComment);
    }
    if db.comments[id].userId != callerId && !callerIsAdmin {
      return Forbidden;
    }
    if db.comments[id].parentId.None? {
      db.RemoveReplies(id);
    } else {
      NoRepliesToReply(db.comments, id);
    }
    db.RemoveComment(id);
    r := Ok;
  }

  /** In well-formed threads nothing answers a reply, so a reply can be removed alone. */
  lemma NoRepliesToReply(cs: map<Id, Comment>, id: Id)
    requires ThreadsWellFormed(cs) && id in cs && cs[id].parentId.Some?
    ensures forall k :: k in cs ==> cs[k].parentId != Some(id)
  {
  }

  /**
   * The listing: a 404 for an unknown lesson, otherwise the ids of the
   * lesson's top-level comments (replies travel inside their parent).
   */
  function ListTopLevel(cat: Catalog, cs: map<Id, Comment>, lessonId: Id): (r: Option<set<Id>>)
    ensures r.None? <==> lessonId !in cat.lessons
    ensures r.Some? ==> forall k :: k in r.value <==> (IsTopLevel(cs, k) && cs[k].lessonId == lessonId)
  {
    if lessonId !in cat.lessons then None
    else Some(set k | k in cs && cs[k].parentId.None? && cs[k].lessonId == lessonId)
  }

  /** The replies that travel with top-level comment `p`. */
  function RepliesOf(cs: map<Id, Comment>, p: Id): (r: set<Id>)
    ensures forall k :: k in r <==> (k in cs && cs[k].parentId == Some(p))
  {
    set k | k in cs && cs[k].parentId == Some(p)
  }

  /**
   * In well-formed threads the listing shows every comment of the lesson
   * exactly once: as a top-level entry, or as a reply of exactly one listed
   * entry.
   */
  lemma {:induction false} ListingCoversLesson(cat: Catalog, cs: map<Id, Comment>, lessonId: Id, k: Id)
    requires ThreadsWellFormed(cs) && lessonId in cat.lessons
    requires k in cs && cs[k].lessonId == lessonId
    ensures k in ListTopLevel(cat, cs, lessonId).value
            || (exists t :: t in ListTopLevel(cat, cs, lessonId).value && k in RepliesOf(cs, t))
    ensures k in ListTopLevel(cat, cs, lessonId).value ==> forall t :: t in cs ==> k !in RepliesOf(cs, t)
    ensures forall t, u :: k in RepliesOf(cs, t) && k in RepliesOf(cs, u) ==> t == u
  {
    var top := ListTopLevel(cat, cs, lessonId).value;
    if cs[k].parentId.Some? {
      var p := cs[k].parentId.value;
      assert p in top && k in RepliesOf(cs, p);
    }
  }
}
