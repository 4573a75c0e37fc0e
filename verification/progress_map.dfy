/**
 * The nested completion map kept in a Progress row: subjectId -> chapterId ->
 * lessonId -> an integer completion value.  This module gives its meaning:
 * which leaves it has, which are complete, the completion percentage, what a
 * freshly generated map looks like, and what setting one leaf does.
 */
module ProgressMap {
  import opened Common
  import opened CatalogStore

  type Nested = map<Id, map<Id, map<Id, int>>>

  predicate IsLeaf(m: Nested, s: Id, c: Id, l: Id) {
    s in m && c in m[s] && l in m[s][c]
  }

  /** Every (subject, chapter, lesson) key triple of the map, stale keys included. */
  function Leaves(m: Nested): set<(Id, Id, Id)> {
    set s, c, l | s in m && c in m[s] && l in m[s][c] :: (s, c, l)
  }

  /** Membership in Leaves, component by component. */
  lemma LeafMember(m: Nested, t: (Id, Id, Id))
    ensures t in Leaves(m) <==> IsLeaf(m, t.0, t.1, t.2)
  {
    if IsLeaf(m, t.0, t.1, t.2) {
      assert (t.0, t.1, t.2) == t;
    }
  }

  /** The leaves whose value is exactly 100. */
  function CompletedLeaves(m: Nested): set<(Id, Id, Id)> {
    set s, c, l | s in m && c in m[s] && l in m[s][c] && m[s][c][l] == 100 :: (s, c, l)
  }

  lemma CompletedAreLeaves(m: Nested)
    ensures CompletedLeaves(m) <= Leaves(m)
    ensures |CompletedLeaves(m)| <= |Leaves(m)|
  {
    var rest := Leaves(m) - CompletedLeaves(m);
    assert Leaves(m) == CompletedLeaves(m) + rest;
  }

  /**
   * The completion percentage: completed leaves over all leaves, times 100,
   * and 0 for a map without leaves.  It is 0 exactly when no leaf is complete
   * and 100 exactly when there are leaves and all of them are complete.
   */
  function Percentage(m: Nested): (p: real)
    ensures 0.0 <= p <= 100.0
    ensures p == 0.0 <==> CompletedLeaves(m) == {}
    ensures p == 100.0 <==> Leaves(m) != {} && CompletedLeaves(m) == Leaves(m)
  {
    CompletedAreLeaves(m);
    var done, total := |CompletedLeaves(m)|, |Leaves(m)|;
    if total == 0 then 0.0
    else
      assert done == total ==> CompletedLeaves(m) == Leaves(m) by {
        if done == total {
          assert |Leaves(m) - CompletedLeaves(m)| == 0;
        }
      }
      FractionBounds(done, total);
      (done as real / total as real) * 100.0
  }

  lemma FractionBounds(done: nat, total: nat)
    requires 0 < total && done <= total
    ensures 0.0 <= (done as real / total as real) * 100.0 <= 100.0
    ensures (done as real / total as real) * 100.0 == 0.0 <==> done == 0
    ensures (done as real / total as real) * 100.0 == 100.0 <==> done == total
  {
    var q := done as real / total as real;
    assert q * total as real == done as real;
    assert (1.0 - q) * total as real == (total - done) as real;
    if q * 100.0 == 100.0 {
      assert q == 1.0;
    }
    if q * 100.0 == 0.0 {
      assert q == 0.0;
    }
  }

  // ---------------------------------------------------------------------
  // Freshly generated maps
  // ---------------------------------------------------------------------

  /** The chapter's mapping lists exactly the chapter's lessons, all at 0. */
  predicate FreshChapter(cm: map<Id, int>, cat: Catalog, c: Id) {
    cm.Keys == cat.LessonsOf(c) && forall l :: l in cm ==> cm[l] == 0
  }

  /** The subject's mapping lists exactly the subject's chapters, each fresh. */
  predicate FreshSubject(sm: map<Id, map<Id, int>>, cat: Catalog, s: Id) {
    sm.Keys == cat.ChaptersOf(s) && forall c :: c in sm ==> FreshChapter(sm[c], cat, c)
  }

  /**
   * The map generated for subcategory sc: one key per subject of sc, per
   * chapter of each subject and per lesson of each chapter, every leaf 0.
   */
  predicate IsFresh(m: Nested, cat: Catalog, sc: Id) {
    m.Keys == cat.SubjectsOf(sc) && forall s :: s in m ==> FreshSubject(m[s], cat, s)
  }

  /** Every (subject, chapter, lesson) triple the catalog reaches from subcategory sc. */
  function CatalogTriples(cat: Catalog, sc: Id): set<(Id, Id, Id)> {
    set s, c, l | s in cat.SubjectsOf(sc) && c in cat.ChaptersOf(s) && l in cat.LessonsOf(c) :: (s, c, l)
  }

  /** Two maps generated from the same catalog for the same subcategory are equal. */
  lemma FreshIsUnique(m1: Nested, m2: Nested, cat: Catalog, sc: Id)
    requires IsFresh(m1, cat, sc) && IsFresh(m2, cat, sc)
    ensures m1 == m2
  {
    forall s | s in m1
      ensures m1[s] == m2[s]
    {
      assert FreshSubject(m1[s], cat, s) && FreshSubject(m2[s], cat, s);
      forall c | c in m1[s]
        ensures m1[s][c] == m2[s][c]
      {
        assert FreshChapter(m1[s][c], cat, c) && FreshChapter(m2[s][c], cat, c);
        forall l | l in m1[s][c] ensures m1[s][c][l] == m2[s][c][l] {
          assert m1[s][c][l] == 0 && m2[s][c][l] == 0;
        }
        assert m1[s][c].Keys == m2[s][c].Keys;
      }
      assert m1[s].Keys == m2[s].Keys;
    }
    assert m1.Keys == m2.Keys;
  }

  /**
   * A fresh map has one leaf per lesson reachable from the subcategory, none
   * of them complete, so its percentage is 0.
   */
  lemma FreshLeaves(m: Nested, cat: Catalog, sc: Id)
    requires IsFresh(m, cat, sc)
    ensures Leaves(m) == CatalogTriples(cat, sc)
    ensures CompletedLeaves(m) == {}
    ensures Percentage(m) == 0.0
  {
    forall s, c, l | IsLeaf(m, s, c, l)
      ensures m[s][c][l] == 0
    {
      assert FreshSubject(m[s], cat, s);
      assert FreshChapter(m[s][c], cat, c);
    }
  }

  /**
   * A subject without chapters still has a (empty) mapping, and a chapter
   * without lessons too; neither contributes a leaf.
   */
  lemma FreshEmptyBranches(m: Nested, cat: Catalog, sc: Id, s: Id, c: Id)
    requires IsFresh(m, cat, sc)
    ensures s in cat.SubjectsOf(sc) && cat.ChaptersOf(s) == {} ==>
              s in m && m[s] == map[] && forall t :: t in Leaves(m) ==> t.0 != s
    ensures s in cat.SubjectsOf(sc) && c in cat.ChaptersOf(s) && cat.LessonsOf(c) == {} ==>
              s in m && c in m[s] && m[s][c] == map[] && forall t :: t in Leaves(m) ==> t.0 != s || t.1 != c
  {
    if s in cat.SubjectsOf(sc) {
      assert FreshSubject(m[s], cat, s);
      if c in cat.ChaptersOf(s) {
        assert FreshChapter(m[s][c], cat, c);
      }
    }
  }

  // ---------------------------------------------------------------------
  // Setting one leaf
  // ---------------------------------------------------------------------

  /** Leaf values stay within 0..100. */
  ghost predicate InRange(m: Nested) {
    forall s, c, l :: IsLeaf(m, s, c, l) ==> 0 <= m[s][c][l] <= 100
  }

  /** A fresh map's leaves, all 0, are within range. */
  lemma FreshInRange(m: Nested, cat: Catalog, sc: Id)
    requires IsFresh(m, cat, sc)
    ensures InRange(m)
  {
    forall s, c, l | IsLeaf(m, s, c, l)
      ensures 0 <= m[s][c][l] <= 100
    {
      assert FreshSubject(m[s], cat, s);
      assert FreshChapter(m[s][c], cat, c);
    }
  }

  /**
   * `map[s][c][l] := v`, creating the subject and chapter mappings as empty
   * ones first when they are missing.  The leaf (s, c, l) then holds v, it is
   * the only leaf that may be new, every other leaf keeps its value, and no
   * other subject or chapter mapping changes.
   */
  function SetLeaf(m: Nested, s: Id, c: Id, l: Id, v: int): (r: Nested)
    ensures IsLeaf(r, s, c, l) && r[s][c][l] == v
    ensures Leaves(r) == Leaves(m) + {(s, c, l)}
    ensures forall s', c', l' :: IsLeaf(m, s', c', l') && (s', c', l') != (s, c, l) ==>
              IsLeaf(r, s', c', l') && r[s'][c'][l'] == m[s'][c'][l']
    ensures r.Keys == m.Keys + {s}
    ensures forall s' :: s' in m && s' != s ==> r[s'] == m[s']
    ensures r[s].Keys == (if s in m then m[s].Keys else {}) + {c}
    ensures forall c' :: s in m && c' in m[s] && c' != c ==> r[s][c'] == m[s][c']
  {
    var sm := if s in m then m[s] else map[];
    var cm := if c in sm then sm[c] else map[];
    var r := m[s := sm[c := cm[l := v]]];
    assert Leaves(r) == Leaves(m) + {(s, c, l)} by {
      forall t | t in Leaves(r) ensures t in Leaves(m) + {(s, c, l)} {
        var s', c', l' :| IsLeaf(r, s', c', l') && t == (s', c', l');
        if (s', c', l') != (s, c, l) {
          assert IsLeaf(m, s', c', l');
        }
      }
      forall t | t in Leaves(m) ensures t in Leaves(r) {
        var s', c', l' :| IsLeaf(m, s', c', l') && t == (s', c', l');
        assert IsLeaf(r, s', c', l');
      }
    }
    r
  }

  /** Setting a leaf to a value in 0..100 keeps every leaf in range. */
  lemma SetLeafInRange(m: Nested, s: Id, c: Id, l: Id, v: int)
    requires InRange(m) && 0 <= v <= 100
    ensures InRange(SetLeaf(m, s, c, l, v))
  {
    var r := SetLeaf(m, s, c, l, v);
    forall s', c', l' | IsLeaf(r, s', c', l')
      ensures 0 <= r[s'][c'][l'] <= 100
    {
      if (s', c', l') != (s, c, l) {
        assert (s', c', l') in Leaves(m) + {(s, c, l)} by {
          assert (s', c', l') in Leaves(r);
        }
        assert IsLeaf(m, s', c', l');
      }
    }
  }

  /** Issuing the same leaf update twice gives the same map as issuing it once. */
  lemma SetLeafIdempotent(m: Nested, s: Id, c: Id, l: Id, v: int)
    ensures SetLeaf(SetLeaf(m, s, c, l, v), s, c, l, v) == SetLeaf(m, s, c, l, v)
  {
    var r := SetLeaf(m, s, c, l, v);
    assert r[s][c][l := v] == r[s][c];
    assert r[s][c := r[s][c]] == r[s];
    assert r[s := r[s]] == r;
  }

  /** Membership in CompletedLeaves, component by component. */
  lemma CompletedMember(m: Nested, t: (Id, Id, Id))
    ensures t in CompletedLeaves(m) <==> IsLeaf(m, t.0, t.1, t.2) && m[t.0][t.1][t.2] == 100
  {
    if IsLeaf(m, t.0, t.1, t.2) && m[t.0][t.1][t.2] == 100 {
      assert (t.0, t.1, t.2) == t;
    }
  }

  /**
   * After one update the completed leaves are the old ones except (s, c, l),
   * plus (s, c, l) when the new value is 100.
   */
  lemma SetLeafCompleted(m: Nested, s: Id, c: Id, l: Id, v: int)
    ensures CompletedLeaves(SetLeaf(m, s, c, l, v))
         == (CompletedLeaves(m) - {(s, c, l)}) + (if v == 100 then {(s, c, l)} else {})
  {
    var r := SetLeaf(m, s, c, l, v);
    var t := (s, c, l);
    var rhs := (CompletedLeaves(m) - {t}) + (if v == 100 then {t} else {});
    forall u | u in CompletedLeaves(r) ensures u in rhs {
      CompletedMember(r, u);
      if u != t {
        assert u in Leaves(r);
        CompletedMember(m, u);
      } else {
        assert v == 100;
      }
    }
    forall u | u in rhs ensures u in CompletedLeaves(r) {
      CompletedMember(r, u);
      if u != t {
        CompletedMember(m, u);
      }
    }
  }

  /** The leaf count grows by one exactly when the updated leaf is new. */
  lemma {:induction false} SetLeafLeafCount(m: Nested, s: Id, c: Id, l: Id, v: int)
    ensures |Leaves(SetLeaf(m, s, c, l, v))| == |Leaves(m)| + (if IsLeaf(m, s, c, l) then 0 else 1)
  {
    var t := (s, c, l);
    if IsLeaf(m, s, c, l) {
      assert t in Leaves(m);
      assert Leaves(m) + {t} == Leaves(m);
    } else {
      assert t !in Leaves(m);
    }
  }

  /** Replacing one element of a finite set changes its size by the obvious amount. */
  lemma SwapCount<T>(a: set<T>, t: T, add: bool)
    ensures |(a - {t}) + (if add then {t} else {})| == |a| - (if t in a then 1 else 0) + (if add then 1 else 0)
  {
    var others := a - {t};
    if t in a {
      assert a == others + {t};
    } else {
      assert others == a;
    }
  }

  /**
   * The completed count loses the old value's contribution and gains the new
   * one's, so recomputing over the whole map agrees with counting incrementally.
   */
  lemma {:induction false} SetLeafCompletedCount(m: Nested, s: Id, c: Id, l: Id, v: int)
    ensures |CompletedLeaves(SetLeaf(m, s, c, l, v))|
         == |CompletedLeaves(m)|
            - (if IsLeaf(m, s, c, l) && m[s][c][l] == 100 then 1 else 0)
            + (if v == 100 then 1 else 0)
  {
    SetLeafCompleted(m, s, c, l, v);
    CompletedMember(m, (s, c, l));
    SwapCount(CompletedLeaves(m), (s, c, l), v == 100);
  }
}
