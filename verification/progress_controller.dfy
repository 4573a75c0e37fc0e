/**
 * The progress handlers: building a fresh completion map from the catalog,
 * computing the completion percentage, recording one lesson's completion
 * value, and resetting an enrollment's progress.
 */
module ProgressController {
  import opened Common
  import opened CatalogStore
  import opened ProgressMap
  import opened Store

  // ---------------------------------------------------------------------
  // generateProgressStructure
  // ---------------------------------------------------------------------

  /**
   * Walks subcategory -> subjects -> chapters -> lessons and writes an empty
   * mapping for every subject and chapter and a 0 for every lesson.
   */
  method GenerateProgressStructure(cat: Catalog, sc: Id) returns (m: Nested)
    ensures IsFresh(m, cat, sc)
  {
    m := map[];
    var subjects := cat.SubjectsOf(sc);
    ghost var doneS: set<Id> := {};
    while subjects != {}
      invariant subjects !! doneS && subjects + doneS == cat.SubjectsOf(sc)
      invariant m.Keys == doneS
      invariant forall s :: s in m ==> FreshSubject(m[s], cat, s)
      decreases subjects
    {
      ghost var someS := Pick(subjects);
      var s :| s in subjects;
      var sm := GenerateSubject(cat, s);
      m := m[s := sm];
      subjects := subjects - {s};
      doneS := doneS + {s};
    }
  }

  /** The chapter loop: an empty mapping per chapter of subject s, then its lessons. */
  method GenerateSubject(cat: Catalog, s: Id) returns (sm: map<Id, map<Id, int>>)
    ensures FreshSubject(sm, cat, s)
  {
    sm := map[];
    var chapters := cat.ChaptersOf(s);
    ghost var doneC: set<Id> := {};
    while chapters != {}
      invariant chapters !! doneC && chapters + doneC == cat.ChaptersOf(s)
      invariant sm.Keys == doneC
      invariant forall c :: c in sm ==> FreshChapter(sm[c], cat, c)
      decreases chapters
    {
      ghost var someC := Pick(chapters);
      var c :| c in chapters;
      var cm := GenerateChapter(cat, c);
      sm := sm[c := cm];
      chapters := chapters - {c};
      doneC := doneC + {c};
    }
  }

  /** The lesson loop: a 0 for every lesson of chapter c. */
  method GenerateChapter(cat: Catalog, c: Id) returns (cm: map<Id, int>)
    ensures FreshChapter(cm, cat, c)
  {
    cm := map[];
    var lessons := cat.LessonsOf(c);
    ghost var doneL: set<Id> := {};
    while lessons != {}
      invariant lessons !! doneL && lessons + doneL == cat.LessonsOf(c)
      invariant cm.Keys == doneL
      invariant forall l :: l in cm ==> cm[l] == 0
      decreases lessons
    {
      ghost var someL := Pick(lessons);
      var l :| l in lessons;
      cm := cm[l := 0];
      lessons := lessons - {l};
      doneL := doneL + {l};
    }
  }

  // ---------------------------------------------------------------------
  // calculateCompletionPercentage
  // ---------------------------------------------------------------------

  /** The leaves under the given subjects. */
  ghost function SubjectLeaves(m: Nested, subjects: set<Id>): set<(Id, Id, Id)> {
    set t | t in Leaves(m) && t.0 in subjects
  }

  /** The leaves under the given chapters of subject s. */
  ghost function ChapterLeaves(m: Nested, s: Id, chapters: set<Id>): set<(Id, Id, Id)> {
    set t | t in Leaves(m) && t.0 == s && t.1 in chapters
  }

  /** The given lessons of chapter c of subject s. */
  ghost function LessonLeaves(m: Nested, s: Id, c: Id, lessons: set<Id>): set<(Id, Id, Id)> {
    set t | t in Leaves(m) && t.0 == s && t.1 == c && t.2 in lessons
  }

  /** Visiting lesson l adds exactly one leaf that was not seen before. */
  lemma VisitLesson(m: Nested, s: Id, c: Id, doneL: set<Id>, l: Id)
    requires IsLeaf(m, s, c, l) && l !in doneL
    ensures (s, c, l) !in LessonLeaves(m, s, c, doneL)
    ensures LessonLeaves(m, s, c, doneL + {l}) == LessonLeaves(m, s, c, doneL) + {(s, c, l)}
  {
    LeafMember(m, (s, c, l));
  }

  /** Finishing chapter c moves its lessons into the chapters seen so far. */
  lemma FinishChapter(m: Nested, s: Id, doneC: set<Id>, c: Id)
    requires s in m && c in m[s] && c !in doneC
    ensures ChapterLeaves(m, s, doneC) !! LessonLeaves(m, s, c, m[s][c].Keys)
    ensures ChapterLeaves(m, s, doneC) + LessonLeaves(m, s, c, m[s][c].Keys) == ChapterLeaves(m, s, doneC + {c})
  {
    forall t | t in ChapterLeaves(m, s, doneC + {c}) && t.1 == c
      ensures t in LessonLeaves(m, s, c, m[s][c].Keys)
    {
      LeafMember(m, t);
    }
  }

  /** Finishing subject s moves its chapters into the subjects seen so far. */
  lemma FinishSubject(m: Nested, doneS: set<Id>, s: Id)
    requires s in m && s !in doneS
    ensures SubjectLeaves(m, doneS) !! ChapterLeaves(m, s, m[s].Keys)
    ensures SubjectLeaves(m, doneS) + ChapterLeaves(m, s, m[s].Keys) == SubjectLeaves(m, doneS + {s})
  {
    forall t | t in SubjectLeaves(m, doneS + {s}) && t.0 == s
      ensures t in ChapterLeaves(m, s, m[s].Keys)
    {
      LeafMember(m, t);
    }
  }

  /** Once every subject is visited, every leaf has been seen. */
  lemma AllSubjects(m: Nested)
    ensures SubjectLeaves(m, m.Keys) == Leaves(m)
  {
    forall t | t in Leaves(m) ensures t.0 in m.Keys {
      LeafMember(m, t);
    }
  }

  /** Counts taken over every subject give the percentage of the whole map. */
  lemma PercentageFromCounts(m: Nested, total: nat, completed: nat)
    requires total == |SubjectLeaves(m, m.Keys)|
    requires completed == |SubjectLeaves(m, m.Keys) * CompletedLeaves(m)|
    ensures Percentage(m) == if total == 0 then 0.0 else (completed as real / total as real) * 100.0
  {
    AllSubjects(m);
    CompletedAreLeaves(m);
    assert Leaves(m) * CompletedLeaves(m) == CompletedLeaves(m);
  }

  /** Sizes of a disjoint union, and of its part inside a third set, add up. */
  lemma DisjointCounts<T>(a: set<T>, b: set<T>, k: set<T>)
    requires a !! b
    ensures |a + b| == |a| + |b|
    ensures |(a + b) * k| == |a * k| + |b * k|
  {
    assert (a + b) * k == a * k + b * k;
    assert a * k !! b * k;
  }

  /** One lesson visited: the counts cover one more lesson of chapter c. */
  lemma LessonStep(m: Nested, s: Id, c: Id, doneL: set<Id>, l: Id, total: nat, completed: nat)
    requires IsLeaf(m, s, c, l) && l !in doneL
    requires total == |LessonLeaves(m, s, c, doneL)|
    requires completed == |LessonLeaves(m, s, c, doneL) * CompletedLeaves(m)|
    ensures total + 1 == |LessonLeaves(m, s, c, doneL + {l})|
    ensures completed + (if m[s][c][l] == 100 then 1 else 0) == |LessonLeaves(m, s, c, doneL + {l}) * CompletedLeaves(m)|
  {
    VisitLesson(m, s, c, doneL, l);
    DisjointCounts(LessonLeaves(m, s, c, doneL), {(s, c, l)}, CompletedLeaves(m));
    CompletedMember(m, (s, c, l));
    if m[s][c][l] == 100 {
      assert {(s, c, l)} * CompletedLeaves(m) == {(s, c, l)};
    } else {
      assert {(s, c, l)} * CompletedLeaves(m) == {};
    }
  }

  /** One chapter counted: the counts cover one more chapter of subject s. */
  lemma ChapterStep(m: Nested, s: Id, doneC: set<Id>, c: Id, total: nat, completed: nat, t: nat, k: nat)
    requires s in m && c in m[s] && c !in doneC
    requires total == |ChapterLeaves(m, s, doneC)|
    requires completed == |ChapterLeaves(m, s, doneC) * CompletedLeaves(m)|
    requires t == |LessonLeaves(m, s, c, m[s][c].Keys)|
    requires k == |LessonLeaves(m, s, c, m[s][c].Keys) * CompletedLeaves(m)|
    ensures total + t == |ChapterLeaves(m, s, doneC + {c})|
    ensures completed + k == |ChapterLeaves(m, s, doneC + {c}) * CompletedLeaves(m)|
  {
    FinishChapter(m, s, doneC, c);
    DisjointCounts(ChapterLeaves(m, s, doneC), LessonLeaves(m, s, c, m[s][c].Keys), CompletedLeaves(m));
  }

  /** One subject counted: the counts cover one more subject. */
  lemma SubjectStep(m: Nested, doneS: set<Id>, s: Id, total: nat, completed: nat, t: nat, k: nat)
    requires s in m && s !in doneS
    requires total == |SubjectLeaves(m, doneS)|
    requires completed == |SubjectLeaves(m, doneS) * CompletedLeaves(m)|
    requires t == |ChapterLeaves(m, s, m[s].Keys)|
    requires k == |ChapterLeaves(m, s, m[s].Keys) * CompletedLeaves(m)|
    ensures total + t == |SubjectLeaves(m, doneS + {s})|
    ensures completed + k == |SubjectLeaves(m, doneS + {s}) * CompletedLeaves(m)|
  {
    FinishSubject(m, doneS, s);
    DisjointCounts(SubjectLeaves(m, doneS), ChapterLeaves(m, s, m[s].Keys), CompletedLeaves(m));
  }

  /** The lesson loop: counts the lessons of chapter c of subject s, and the completed ones. */
  method CountChapter(m: Nested, s: Id, c: Id) returns (total: nat, completed: nat)
    requires s in m && c in m[s]
    ensures total == |LessonLeaves(m, s, c, m[s][c].Keys)|
    ensures completed == |LessonLeaves(m, s, c, m[s][c].Keys) * CompletedLeaves(m)|
  {
    total, completed := 0, 0;
    ghost var doneL: set<Id> := {};
    assert LessonLeaves(m, s, c, doneL) == {};
    var lessons := m[s][c].Keys;
    while lessons != {}
      invariant lessons <= m[s][c].Keys && doneL == m[s][c].Keys - lessons
      invariant total == |LessonLeaves(m, s, c, doneL)|
      invariant completed == |LessonLeaves(m, s, c, doneL) * CompletedLeaves(m)|
      decreases lessons
    {
      ghost var someL := Pick(lessons);
      var l :| l in lessons;
      LessonStep(m, s, c, doneL, l, total, completed);
      total, completed := total + 1, completed + (if m[s][c][l] == 100 then 1 else 0);
      lessons := lessons - {l};
      doneL := doneL + {l};
    }
    assert doneL == m[s][c].Keys;
  }

  /** The chapter loop: counts the lessons of every chapter of subject s. */
  method CountSubject(m: Nested, s: Id) returns (total: nat, completed: nat)
    requires s in m
    ensures total == |ChapterLeaves(m, s, m[s].Keys)|
    ensures completed == |ChapterLeaves(m, s, m[s].Keys) * CompletedLeaves(m)|
  {
    total, completed := 0, 0;
    ghost var doneC: set<Id> := {};
    assert ChapterLeaves(m, s, doneC) == {};
    var chapters := m[s].Keys;
    while chapters != {}
      invariant chapters <= m[s].Keys && doneC == m[s].Keys - chapters
      invariant total == |ChapterLeaves(m, s, doneC)|
      invariant completed == |ChapterLeaves(m, s, doneC) * CompletedLeaves(m)|
      decreases chapters
    {
      ghost var someC := Pick(chapters);
      var c :| c in chapters;
      var t, k := CountChapter(m, s, c);
      ChapterStep(m, s, doneC, c, total, completed, t, k);
      total, completed := total + t, completed + k;
      chapters := chapters - {c};
      doneC := doneC + {c};
    }
    assert doneC == m[s].Keys;
  }

  /** The subject loop: counts the lessons of every chapter of the given subjects. */
  method CountMap(m: Nested, keys: set<Id>) returns (total: nat, completed: nat)
    requires keys <= m.Keys
    ensures total == |SubjectLeaves(m, keys)|
    ensures completed == |SubjectLeaves(m, keys) * CompletedLeaves(m)|
  {
    total, completed := 0, 0;
    ghost var doneS: set<Id> := {};
    assert SubjectLeaves(m, doneS) == {};
    var subjects := keys;
    while subjects != {}
      invariant subjects !! doneS && subjects + doneS == keys
      invariant total == |SubjectLeaves(m, doneS)|
      invariant completed == |SubjectLeaves(m, doneS) * CompletedLeaves(m)|
      decreases subjects
    {
      ghost var someS := Pick(subjects);
      var s :| s in subjects;
      var t, k := CountSubject(m, s);
      SubjectStep(m, doneS, s, total, completed, t, k);
      total, completed := total + t, completed + k;
      subjects := subjects - {s};
      doneS := doneS + {s};
    }
    assert doneS == keys;
  }

  /**
   * Counts every lesson key of every chapter of every subject, and those
   * whose value is exactly 100, then divides; a map without lessons gives 0.
   */
  method CalculateCompletionPercentage(m: Nested) returns (p: real)
    ensures p == Percentage(m)
  {
    var total, completed := CountMap(m, m.Keys);
    PercentageFromCounts(m, total, completed);
    if total == 0 {
      p := 0.0;
    } else {
      p := (completed as real / total as real) * 100.0;
    }
  }

  // ---------------------------------------------------------------------
  // updateLessonProgress
  // ---------------------------------------------------------------------

  /**
   * The progress row after a successful lesson update: the leaf holds the
   * new status, the percentage is recomputed over the whole map (stale keys
   * included) and the access time is the current time.
   */
  function UpdatedRow(row: ProgressRow, s: Id, c: Id, l: Id, status: int, now: int): (r: ProgressRow)
    ensures IsLeaf(r.progress, s, c, l) && r.progress[s][c][l] == status
    ensures Leaves(r.progress) == Leaves(row.progress) + {(s, c, l)}
    ensures r.completionPercentage == Percentage(r.progress)
    ensures r.subcategoryId == row.subcategoryId && r.lastAccessedAt == now
  {
    var m := SetLeaf(row.progress, s, c, l, status);
    ProgressRow(row.subcategoryId, m, Percentage(m), now)
  }

  /** Issuing the same lesson update twice leaves the same row as issuing it once. */
  lemma UpdateIdempotent(row: ProgressRow, s: Id, c: Id, l: Id, status: int, now: int)
    ensures UpdatedRow(UpdatedRow(row, s, c, l, status, now), s, c, l, status, now)
         == UpdatedRow(row, s, c, l, status, now)
  {
    SetLeafIdempotent(row.progress, s, c, l, status);
  }

  /** A lesson update keeps leaves within 0..100 and the stored percentage equal to the map's. */
  lemma UpdateKeepsRowConsistent(row: ProgressRow, s: Id, c: Id, l: Id, status: int, now: int)
    requires InRange(row.progress) && 0 <= status <= 100
    ensures InRange(UpdatedRow(row, s, c, l, status, now).progress)
    ensures 0.0 <= UpdatedRow(row, s, c, l, status, now).completionPercentage <= 100.0
  {
    SetLeafInRange(row.progress, s, c, l, status);
  }

  /**
   * The in-place part of the handler: sets the leaf, creating missing
   * subject and chapter mappings, then recomputes the percentage over the
   * whole map.
   */
  method WriteLesson(row: ProgressRow, s: Id, c: Id, l: Id, status: int, now: int) returns (r: ProgressRow)
    ensures r == UpdatedRow(row, s, c, l, status, now)
  {
    var data := SetLeaf(row.progress, s, c, l, status);
    var pct := CalculateCompletionPercentage(data);
    r := ProgressRow(row.subcategoryId, data, pct, now);
  }

  /**
   * Validates the status, then checks subject, chapter under subject, lesson
   * under chapter and the enrollment's progress row, in that order, and
   * answers the first that fails without writing.  Otherwise writes the leaf
   * and the recomputed percentage.
   */
  method UpdateLessonProgress(db: Db, enrollmentId: Id, subjectId: Id, chapterId: Id, lessonId: Id, status: int, now: int)
    returns (r: Response)
    requires db.Valid()
    modifies db`progress
    ensures db.Valid()
    ensures !(0 <= status <= 100) ==> r == Invalid
    ensures 0 <= status <= 100 && subjectId !in db.catalog.subjects ==> r == NotFound(NoSubject)
    ensures (0 <= status <= 100 && subjectId in db.catalog.subjects
             && !db.catalog.ChapterUnder(chapterId, subjectId)) ==> r == NotFound(NoChapter)
    ensures (0 <= status <= 100 && subjectId in db.catalog.subjects && db.catalog.ChapterUnder(chapterId, subjectId)
             && !db.catalog.LessonUnder(lessonId, chapterId)) ==> r == NotFound(NoLesson)
    ensures (0 <= status <= 100 && subjectId in db.catalog.subjects && db.catalog.ChapterUnder(chapterId, subjectId)
             && db.catalog.LessonUnder(lessonId, chapterId) && enrollmentId !in old(db.progress))
            ==> r == NotFound(NoProgress)
    ensures r == Ok <==> (0 <= status <= 100 && subjectId in db.catalog.subjects
                          && db.catalog.ChapterUnder(chapterId, subjectId) && db.catalog.LessonUnder(lessonId, chapterId)
                          && enrollmentId in old(db.progress))
    ensures r != Ok ==> db.progress == old(db.progress)
    ensures r == Ok ==> db.progress == old(db.progress)[enrollmentId :=
              UpdatedRow(old(db.progress)[enrollmentId], subjectId, chapterId, lessonId, status, now)]
  {
    if !(0 <= status <= 100) {
      r := Invalid;
    } else if subjectId !in db.catalog.subjects {
      r := NotFound(NoSubject);
    } else if !db.catalog.ChapterUnder(chapterId, subjectId) {
      r := NotFound(NoChapter);
    } else if !db.catalog.LessonUnder(lessonId, chapterId) {
      r := NotFound(NoLesson);
    } else if enrollmentId !in db.progress {
      r := NotFound(NoProgress);
    } else {
      var row := db.progress[enrollmentId];
      var row' := WriteLesson(row, subjectId, chapterId, lessonId, status, now);
      UpdateKeepsRowConsistent(row, subjectId, chapterId, lessonId, status, now);
      db.PutProgress(enrollmentId, row');
      r := Ok;
    }
  }

  // ---------------------------------------------------------------------
  // resetProgress
  // ---------------------------------------------------------------------

  /**
   * Fails when the enrollment or its progress row is missing, in that order;
   * otherwise replaces the map with a freshly generated one for the
   * enrollment's subcategory and sets the percentage to 0.
   */
  method ResetProgress(db: Db, enrollmentId: Id, now: int) returns (r: Response)
    requires db.Valid()
    modifies db`progress
    ensures db.Valid()
    ensures enrollmentId !in db.enrollments ==> r == NotFound(NoEnrollment)
    ensures enrollmentId in db.enrollments && enrollmentId !in old(db.progress) ==> r == NotFound(NoProgress)
    ensures r == Ok <==> enrollmentId in db.enrollments && enrollmentId in old(db.progress)
    ensures r != Ok ==> db.progress == old(db.progress)
    ensures r == Ok ==>
              db.progress.Keys == old(db.progress).Keys
              && (forall e :: e in db.progress && e != enrollmentId ==> db.progress[e] == old(db.progress)[e])
              && IsFresh(db.progress[enrollmentId].progress, db.catalog, db.enrollments[enrollmentId].subcategoryId)
              && db.progress[enrollmentId].completionPercentage == 0.0
              && db.progress[enrollmentId].subcategoryId == old(db.progress)[enrollmentId].subcategoryId
              && db.progress[enrollmentId].lastAccessedAt == now
  {
    if enrollmentId !in db.enrollments {
      return NotFound(NoEnrollment);
    }
    if enrollmentId !in db.progress {
      return NotFound(NoProgress);
    }
    var data := GenerateProgressStructure(db.catalog, db.enrollments[enrollmentId].subcategoryId);
    FreshLeaves(data, db.catalog, db.enrollments[enrollmentId].subcategoryId);
    FreshInRange(data, db.catalog, db.enrollments[enrollmentId].subcategoryId);
    db.PutProgress(enrollmentId, db.progress[enrollmentId].(progress := data, completionPercentage := 0.0, lastAccessedAt := now));
    r := Ok;
  }
}
