/** Identifiers, optional values and handler responses shared by every controller. */
module Common {

  /** Integer primary keys, as the tables declare them (auto-increment starting at 1). */
  type Id = int

  datatype Option<T> = None | Some(value: T)

  /** The lookup that failed, for a 404 response; each handler checks them in a fixed order. */
  datatype Missing =
    | NoStudent | NoSubcategory | NoSubject | NoChapter | NoLesson
    | NoEnrollment | NoProgress | NoComment | NoParentComment | NoUser

  /** Why a handler answered 400 after validation succeeded. */
  datatype Reason = DuplicateEmail | ReplyToReply | ParentOnOtherLesson | InvalidOrExpiredOtp | UnknownEmail

  /** What a handler answers; the HTTP status is given beside each case. */
  datatype Response =
    | Ok                      // 200
    | Created(id: Id)         // 201, with the id of the new row
    | Invalid                 // 422, the request validator rejected the input
    | BadRequest(why: Reason) // 400, a handler check failed
    | Unauthorized            // 401
    | Forbidden               // 403
    | NotFound(what: Missing) // 404
    | Conflict                // 409
    | ServerError             // 500, an exception reached the handler's catch

  /**
   * The length JavaScript reports for a string: UTF-16 code units, so a
   * character outside the Basic Multilingual Plane counts twice.  The
   * validators' `min` and `max` bounds compare against this length.
   */
  function JsLength(s: string): (n: nat)
    ensures |s| <= n <= 2 * |s|
  {
    if s == [] then 0 else JsLength(s[..|s| - 1]) + (if s[|s| - 1] as int < 0x1_0000 then 1 else 2)
  }

  /** The JavaScript length is the character count exactly when every character is in the Basic Multilingual Plane. */
  lemma {:induction false} JsLengthOfBmp(s: string)
    ensures JsLength(s) == |s| <==> forall i :: 0 <= i < |s| ==> s[i] as int < 0x1_0000
  {
    if s != [] {
      var init := s[..|s| - 1];
      JsLengthOfBmp(init);
      assert forall i :: 0 <= i < |init| ==> init[i] == s[i];
    }
  }

  /** A string of characters outside the Basic Multilingual Plane (emoji, say) has twice as many code units as characters. */
  lemma {:induction false} JsLengthOfAstral(s: string)
    requires forall i :: 0 <= i < |s| ==> s[i] as int >= 0x1_0000
    ensures JsLength(s) == 2 * |s|
  {
    if s != [] {
      var init := s[..|s| - 1];
      assert forall i :: 0 <= i < |init| ==> init[i] == s[i];
      JsLengthOfAstral(init);
    }
  }

  /**
   * Some element of a non-empty set.  The solver does not find a witness for
   * `x :| x in s` from `s != {}` alone, so the loops that visit a set of keys
   * call this before choosing the next key.
   */
  lemma Pick<T>(s: set<T>) returns (x: T)
    requires s != {}
    ensures x in s
  {
    x :| x in s;
  }
}
