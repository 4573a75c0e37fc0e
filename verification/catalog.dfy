/**
 * The read-only course hierarchy that progress maps are built from:
 * subcategories, subjects (with their subcategoryId), chapters (with their
 * subjectId) and lessons (with their chapterId).  Each table maps a row id
 * to its parent's id, so every id appears once, as a primary key does.
 */
module CatalogStore {
  import opened Common

  datatype Catalog = Catalog(
    subcategories: set<Id>,
    subjects: map<Id, Id>,   // subject id -> subcategoryId
    chapters: map<Id, Id>,   // chapter id -> subjectId
    lessons: map<Id, Id>)    // lesson id -> chapterId
  {
    /** Subjects listed for a subcategory (`findSubjects where subcategoryId`). */
    function SubjectsOf(sc: Id): set<Id> {
      set s | s in subjects && subjects[s] == sc
    }

    /** Chapters listed for a subject (`findChapters where subjectId`). */
    function ChaptersOf(s: Id): set<Id> {
      set c | c in chapters && chapters[c] == s
    }

    /** Lessons listed for a chapter (`findLessons where chapterId`). */
    function LessonsOf(c: Id): set<Id> {
      set l | l in lessons && lessons[l] == c
    }

    /** A chapter with this id exists and belongs to the subject (`findChapter where {id, subjectId}`). */
    predicate ChapterUnder(c: Id, s: Id) {
      c in chapters && chapters[c] == s
    }

    /** A lesson with this id exists and belongs to the chapter (`findLesson where {id, chapterId}`). */
    predicate LessonUnder(l: Id, c: Id) {
      l in lessons && lessons[l] == c
    }
  }
}
