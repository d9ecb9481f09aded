/** The grading reconciliation engine of `CFDPresidentController`: the three
    classifications of a copy, teacher assignment, and the batch that publishes
    results and retires the copies they were computed from. */
module CFDPresident {
  import opened Wrappers
  import opened Sequences
  import opened Models
  import opened Flash
  import opened Text
  import AppConstants

  function Abs(x: real): real {
    if x < 0.0 then -x else x
  }

  function Max(a: real, b: real): real {
    if a < b then b else a
  }

  // ---------------------------------------------------------------------------
  // Classification of a copy
  // ---------------------------------------------------------------------------

  /** "Marked": two marks that agree (differ by less than the threshold), or two marks
      and a third one that settles them. */
  predicate IsMarked(c: Copy) {
    && c.mark1.Some? && c.mark2.Some?
    && (Abs(c.mark1.value - c.mark2.value) < AppConstants.MarkDifferenceThreshold || c.mark3.Some?)
  }

  /** "Unmarked": neither of the first two marks nor of the first two teachers is set.
      The third teacher and the third mark are not looked at. */
  predicate IsUnmarked(c: Copy) {
    c.mark1.None? && c.mark2.None? && c.teacher1.None? && c.teacher2.None?
  }

  /** "Requires a third teacher": two marks that disagree and no third teacher yet. */
  predicate RequiresThirdTeacher(c: Copy) {
    && c.mark1.Some? && c.mark2.Some? && c.teacher3.None?
    && Abs(c.mark1.value - c.mark2.value) >= AppConstants.MarkDifferenceThreshold
  }

  /** The copies listed on the "marked" page and consumed by publishing. */
  function MarkedCopies(copies: seq<Copy>): seq<Copy> {
    Filter(IsMarked, copies)
  }

  /** The copies listed on the teacher-assignment page. */
  function UnmarkedCopies(copies: seq<Copy>): seq<Copy> {
    Filter(IsUnmarked, copies)
  }

  /** The copies listed on the third-teacher page. */
  function CopiesRequiringThirdTeacher(copies: seq<Copy>): seq<Copy> {
    Filter(RequiresThirdTeacher, copies)
  }

  /** Two marks within the threshold make a copy marked; it never needs a third teacher. */
  lemma AgreeingMarksAreMarked(c: Copy)
    requires c.mark1.Some? && c.mark2.Some?
    requires Abs(c.mark1.value - c.mark2.value) < AppConstants.MarkDifferenceThreshold
    ensures IsMarked(c) && !RequiresThirdTeacher(c) && !IsUnmarked(c)
  {
  }

  /** Two marks at or beyond the threshold: the copy is marked exactly when a third mark
      exists, and needs a third teacher exactly when none is assigned. */
  lemma DisagreeingMarks(c: Copy)
    requires c.mark1.Some? && c.mark2.Some?
    requires Abs(c.mark1.value - c.mark2.value) >= AppConstants.MarkDifferenceThreshold
    ensures IsMarked(c) <==> c.mark3.Some?
    ensures RequiresThirdTeacher(c) <==> c.teacher3.None?
  {
  }

  /** A copy lacking one of the first two marks is in neither of those two lists,
      whatever its third mark. */
  lemma MissingMarkIsNeitherMarkedNorDisputed(c: Copy)
    requires c.mark1.None? || c.mark2.None?
    ensures !IsMarked(c) && !RequiresThirdTeacher(c)
  {
  }

  /** The "unmarked" list shares no copy with the other two lists: together with each of
      them it takes at most the copies there are. */
  lemma UnmarkedIsDisjoint(copies: seq<Copy>)
    ensures multiset(UnmarkedCopies(copies)) + multiset(MarkedCopies(copies)) <= multiset(copies)
    ensures multiset(UnmarkedCopies(copies)) + multiset(CopiesRequiringThirdTeacher(copies)) <= multiset(copies)
  {
    var u, m, t := UnmarkedCopies(copies), MarkedCopies(copies), CopiesRequiringThirdTeacher(copies);
    FilterMultiset(IsUnmarked, copies);
    FilterMultiset(IsMarked, copies);
    FilterMultiset(RequiresThirdTeacher, copies);
    forall c ensures (multiset(u) + multiset(m))[c] <= multiset(copies)[c] {
      assert !(IsUnmarked(c) && IsMarked(c));
    }
    forall c ensures (multiset(u) + multiset(t))[c] <= multiset(copies)[c] {
      assert !(IsUnmarked(c) && RequiresThirdTeacher(c));
    }
  }

  /** A third mark given while no third teacher is assigned puts a disputed copy on both the
      "marked" and the "requires a third teacher" lists: those two lists can overlap. */
  lemma MarkedAndDisputedOverlap()
    ensures var c := Copy(1, 2, 3, Some(5.0), Some(12.0), Some(9.0), Some(4), Some(5), None);
      IsMarked(c) && RequiresThirdTeacher(c)
  {
  }

  // ---------------------------------------------------------------------------
  // Final mark of a copy
  // ---------------------------------------------------------------------------

  /** The mark a copy contributes to its candidate's result. */
  function FinalMark(c: Copy): real {
    if c.mark3.Some? then c.mark3.value
    else if c.mark1.Some? && c.mark2.Some? then Max(c.mark1.value, c.mark2.value)
    else 0.0
  }

  /** A third mark decides, even below both earlier marks; without one, two marks give the
      higher of them, whichever slot holds it; a copy with neither gives 0. */
  lemma FinalMarkRule(c: Copy)
    ensures c.mark3.Some? ==> FinalMark(c) == c.mark3.value
    ensures c.mark3.None? && c.mark1.Some? && c.mark2.Some? ==>
      FinalMark(c) >= c.mark1.value && FinalMark(c) >= c.mark2.value
      && (FinalMark(c) == c.mark1.value || FinalMark(c) == c.mark2.value)
    ensures c.mark3.None? && (c.mark1.None? || c.mark2.None?) ==> FinalMark(c) == 0.0
  {
  }

  // ---------------------------------------------------------------------------
  // Teacher assignment
  // ---------------------------------------------------------------------------

  /** `assignTeachers`: sets the first two teachers of the copy with this id, replacing any
      earlier ones, without looking at the copy's state. An unknown id changes no copy.
      Notifying the teachers cannot fail the request and is not modelled. */
  method AssignTeachers(db: Database, session: Session, copyId: Id, teacher1Id: Id, teacher2Id: Id)
    returns (found: bool)
    requires db.Valid()
    modifies db, session
    ensures db.Valid()
    ensures found <==> exists c :: c in old(db.copies) && c.id == copyId
    ensures |db.copies| == |old(db.copies)|
    ensures forall k :: 0 <= k < |db.copies| ==>
      db.copies[k] == if old(db.copies[k]).id == copyId
                      then old(db.copies[k]).(teacher1 := Some(teacher1Id), teacher2 := Some(teacher2Id))
                      else old(db.copies[k])
    ensures db.users == old(db.users) && db.results == old(db.results) && db.posts == old(db.posts)
    ensures db.secretCodes == old(db.secretCodes) && db.nextId == old(db.nextId)
    ensures session.data == if found then WithFlash(old(session.data), Success, "Teachers assigned successfully.")
                            else WithFlash(old(session.data), Error, "Copy not found.")
  {
    var index := FindIndex((c: Copy) => c.id == copyId, db.copies);
    if index.None? {
      session.SetFlash(Error, "Copy not found.");
      return false;
    }
    var i := index.value;
    var copy := db.copies[i];
    copy := copy.(teacher1 := Some(teacher1Id));
    copy := copy.(teacher2 := Some(teacher2Id));
    ReplaceSameKey(CopyKey, db.copies, i, copy);
    db.copies := db.copies[i := copy];
    assert forall k :: 0 <= k < |db.copies| && k != i ==> old(db.copies[k]).id != copyId;
    session.SetFlash(Success, "Teachers assigned successfully.");
    found := true;
  }

  /** `assignThirdTeacher`: sets the third teacher of the copy with this id, with no check
      that the copy needs one. An unknown id is "not found" and changes nothing. */
  method AssignThirdTeacher(db: Database, copyId: Id, teacher3Id: Id) returns (found: bool)
    requires db.Valid()
    modifies db
    ensures db.Valid()
    ensures found <==> exists c :: c in old(db.copies) && c.id == copyId
    ensures |db.copies| == |old(db.copies)|
    ensures forall k :: 0 <= k < |db.copies| ==>
      db.copies[k] == if old(db.copies[k]).id == copyId
                      then old(db.copies[k]).(teacher3 := Some(teacher3Id))
                      else old(db.copies[k])
    ensures db.users == old(db.users) && db.results == old(db.results) && db.posts == old(db.posts)
    ensures db.secretCodes == old(db.secretCodes) && db.nextId == old(db.nextId)
  {
    var index := FindIndex((c: Copy) => c.id == copyId, db.copies);
    if index.None? {
      return false;
    }
    var i := index.value;
    var copy := db.copies[i].(teacher3 := Some(teacher3Id));
    ReplaceSameKey(CopyKey, db.copies, i, copy);
    db.copies := db.copies[i := copy];
    assert forall k :: 0 <= k < |db.copies| && k != i ==> old(db.copies[k]).id != copyId;
    found := true;
  }

  // ---------------------------------------------------------------------------
  // Publishing results
  // ---------------------------------------------------------------------------

  /** The candidates the publishing pass visits: the owners of a marked copy. */
  function CandidatesWithMarkedCopy(copies: seq<Copy>): set<Id> {
    set c | c in MarkedCopies(copies) :: c.candidate
  }

  /** The re-query of one candidate's copies: all of them, marked or not. */
  function CopiesOf(copies: seq<Copy>, candidate: Id): seq<Copy> {
    Filter((c: Copy) => c.candidate == candidate, copies)
  }

  /** The table once every copy of the given candidates has been deleted. */
  function WithoutCandidates(copies: seq<Copy>, candidates: set<Id>): seq<Copy> {
    Filter((c: Copy) => c.candidate !in candidates, copies)
  }

  /** The candidates that one publishing pass publishes: those owning a marked copy
      and exactly the required number of copies in all. */
  function PublishedCandidates(copies: seq<Copy>): set<Id> {
    set k | k in CandidatesWithMarkedCopy(copies) && |CopiesOf(copies, k)| == AppConstants.RequiredModulesPerCandidate
  }

  /** The published value of a candidate with two copies. */
  function CandidateValue(candidateCopies: seq<Copy>): real
    requires |candidateCopies| == AppConstants.RequiredModulesPerCandidate
  {
    (FinalMark(candidateCopies[0]) + FinalMark(candidateCopies[1])) * AppConstants.ResultCalculationMultiplier
  }

  /** The copies left after one publishing pass. */
  function CopiesAfterPublish(copies: seq<Copy>): seq<Copy> {
    WithoutCandidates(copies, PublishedCandidates(copies))
  }

  function ResultCandidates(results: seq<Result>): set<Id> {
    set r | r in results :: r.candidate
  }

  /** `newResults` holds one result for each candidate published from `copies`, with its
      value, and nothing else (in some order). */
  ghost predicate PublishesExactly(newResults: seq<Result>, copies: seq<Copy>) {
    && ResultCandidates(newResults) == PublishedCandidates(copies)
    && |newResults| == |PublishedCandidates(copies)|
    && forall r :: r in newResults ==>
         |CopiesOf(copies, r.candidate)| == AppConstants.RequiredModulesPerCandidate
         && r.value == CandidateValue(CopiesOf(copies, r.candidate))
  }

  /** Deleting other candidates' copies leaves a candidate's own copies as they were. */
  lemma {:induction false} CopiesOfWithout(copies: seq<Copy>, gone: set<Id>, candidate: Id)
    requires candidate !in gone
    ensures CopiesOf(WithoutCandidates(copies, gone), candidate) == CopiesOf(copies, candidate)
  {
    if copies != [] {
      CopiesOfWithout(copies[1..], gone, candidate);
    }
  }

  /** Deleting a candidate's copies leaves none of them. */
  lemma {:induction false} CopiesOfGone(copies: seq<Copy>, gone: set<Id>, candidate: Id)
    requires candidate in gone
    ensures CopiesOf(WithoutCandidates(copies, gone), candidate) == []
  {
    if copies != [] {
      CopiesOfGone(copies[1..], gone, candidate);
    }
  }

  /** Deleting copies keeps the copy identifiers unique. */
  lemma WithoutKeepsKeys(copies: seq<Copy>, gone: set<Id>)
    requires UniqueKeys(CopyKey, copies)
    ensures UniqueKeys(CopyKey, WithoutCandidates(copies, gone))
  {
    FilterUniqueKeys((c: Copy) => c.candidate !in gone, CopyKey, copies);
  }

  /** Deleting nobody's copies keeps the table. */
  lemma {:induction false} WithoutNobody(copies: seq<Copy>)
    ensures WithoutCandidates(copies, {}) == copies
  {
    if copies != [] {
      WithoutNobody(copies[1..]);
      assert copies == [copies[0]] + copies[1..];
    }
  }

  /** Deleting two groups of candidates one after the other deletes their union. */
  lemma {:induction false} WithoutTwice(copies: seq<Copy>, a: set<Id>, b: set<Id>)
    ensures WithoutCandidates(WithoutCandidates(copies, a), b) == WithoutCandidates(copies, a + b)
  {
    if copies != [] {
      WithoutTwice(copies[1..], a, b);
    }
  }

  /** After a pass, a published candidate has no copies left and every other candidate
      keeps exactly the copies it had. */
  lemma CopiesAfterPublishByCandidate(copies: seq<Copy>, candidate: Id)
    ensures candidate in PublishedCandidates(copies) ==> CopiesOf(CopiesAfterPublish(copies), candidate) == []
    ensures candidate !in PublishedCandidates(copies) ==>
      CopiesOf(CopiesAfterPublish(copies), candidate) == CopiesOf(copies, candidate)
  {
    if candidate !in PublishedCandidates(copies) {
      CopiesOfWithout(copies, PublishedCandidates(copies), candidate);
    } else {
      CopiesOfGone(copies, PublishedCandidates(copies), candidate);
    }
  }

  /** Publishing is idempotent: a second pass over what the first one left publishes nobody. */
  lemma PublishIdempotent(copies: seq<Copy>)
    ensures PublishedCandidates(CopiesAfterPublish(copies)) == {}
  {
    var p := PublishedCandidates(copies);
    var after := CopiesAfterPublish(copies);
    forall k | k in CandidatesWithMarkedCopy(after)
      ensures |CopiesOf(after, k)| != AppConstants.RequiredModulesPerCandidate
    {
      var c :| c in MarkedCopies(after) && c.candidate == k;
      FilterMembers(IsMarked, after);
      FilterMembers((c: Copy) => c.candidate !in p, copies);
      FilterMembers(IsMarked, copies);
      assert c in after && c in copies && k !in p;
      assert k in CandidatesWithMarkedCopy(copies);
      CopiesOfWithout(copies, p, k);
    }
  }

  lemma ResultCandidatesAppend(results: seq<Result>, r: Result)
    ensures ResultCandidates(results + [r]) == ResultCandidates(results) + {r.candidate}
  {
    assert forall x :: x in results + [r] <==> x in results || x == r;
  }

  /** What holds after the publishing pass has visited the candidates in `visited`:
      exactly those of them due for publication have been published. */
  ghost predicate PassDone(initial: seq<Copy>, visited: set<Id>, published: set<Id>,
                           newResults: seq<Result>, copies: seq<Copy>)
  {
    && published <= visited
    && (forall k :: k in visited ==>
          (k in published <==> |CopiesOf(initial, k)| == AppConstants.RequiredModulesPerCandidate))
    && copies == WithoutCandidates(initial, published)
    && ResultCandidates(newResults) == published
    && |newResults| == |published|
    && forall r :: r in newResults ==>
         |CopiesOf(initial, r.candidate)| == AppConstants.RequiredModulesPerCandidate
         && r.value == CandidateValue(CopiesOf(initial, r.candidate))
  }

  /** One step of the pass: the visited candidate is re-queried on the current table, which
      gives the same copies as on the initial one; it is published (one more result, its
      copies deleted) exactly when it is due. */
  lemma PassStep(initial: seq<Copy>, visited: set<Id>, published: set<Id>, newResults: seq<Result>,
                 copies: seq<Copy>, candidate: Id)
    requires PassDone(initial, visited, published, newResults, copies)
    requires candidate !in visited
    ensures CopiesOf(copies, candidate) == CopiesOf(initial, candidate)
    ensures |published + {candidate}| == |published| + 1
    ensures |CopiesOf(copies, candidate)| == AppConstants.RequiredModulesPerCandidate ==>
      var result := Result(candidate, CandidateValue(CopiesOf(copies, candidate)));
      PassDone(initial, visited + {candidate}, published + {candidate}, newResults + [result],
               WithoutCandidates(copies, {candidate}))
    ensures |CopiesOf(copies, candidate)| != AppConstants.RequiredModulesPerCandidate ==>
      PassDone(initial, visited + {candidate}, published, newResults, copies)
  {
    CopiesOfWithout(initial, published, candidate);
    if |CopiesOf(copies, candidate)| == AppConstants.RequiredModulesPerCandidate {
      var result := Result(candidate, CandidateValue(CopiesOf(copies, candidate)));
      WithoutTwice(initial, published, {candidate});
      ResultCandidatesAppend(newResults, result);
    }
  }

  /** One turn of the publishing loop: re-queries the candidate's copies; when there are
      exactly two, saves the candidate's result and deletes those copies, otherwise skips the
      candidate. The redundant second count check on the final marks always passes. */
  method PublishCandidate(db: Database, candidateId: Id) returns (published: bool)
    modifies db
    ensures published <==> |CopiesOf(old(db.copies), candidateId)| == AppConstants.RequiredModulesPerCandidate
    ensures published ==>
      && db.results == old(db.results) + [Result(candidateId, CandidateValue(CopiesOf(old(db.copies), candidateId)))]
      && db.copies == WithoutCandidates(old(db.copies), {candidateId})
    ensures !published ==> db.results == old(db.results) && db.copies == old(db.copies)
    ensures db.users == old(db.users) && db.posts == old(db.posts)
    ensures db.secretCodes == old(db.secretCodes) && db.nextId == old(db.nextId)
  {
    var candidateCopies := CopiesOf(db.copies, candidateId);
    if |candidateCopies| != AppConstants.RequiredModulesPerCandidate {
      return false;
    }
    var finalMarks := seq(|candidateCopies|, i requires 0 <= i < |candidateCopies| => FinalMark(candidateCopies[i]));
    // The second count check of the source, on the final marks, always passes.
    assert |finalMarks| == AppConstants.RequiredModulesPerCandidate;
    var average := (finalMarks[0] + finalMarks[1]) * AppConstants.ResultCalculationMultiplier;
    db.results := db.results + [Result(candidateId, average)];
    db.copies := WithoutCandidates(db.copies, {candidateId});
    published := true;
  }

  /** The loop of `publishResults`: visits the given candidates in any order and runs one
      turn for each, counting those published. */
  method PublishEach(db: Database, candidateIds: set<Id>)
    returns (publishedCount: nat, ghost published: set<Id>, ghost newResults: seq<Result>)
    modifies db
    ensures PassDone(old(db.copies), candidateIds, published, newResults, db.copies)
    ensures db.results == old(db.results) + newResults
    ensures publishedCount == |published|
    ensures db.users == old(db.users) && db.posts == old(db.posts)
    ensures db.secretCodes == old(db.secretCodes) && db.nextId == old(db.nextId)
  {
    ghost var initial := db.copies;
    published, newResults := {}, [];
    var remaining := candidateIds;
    publishedCount := 0;
    WithoutNobody(initial);
    while remaining != {}
      invariant remaining <= candidateIds
      invariant PassDone(initial, candidateIds - remaining, published, newResults, db.copies)
      invariant db.results == old(db.results) + newResults
      invariant publishedCount == |published|
      invariant db.users == old(db.users) && db.posts == old(db.posts)
      invariant db.secretCodes == old(db.secretCodes) && db.nextId == old(db.nextId)
      decreases remaining
    {
      var candidateId :| candidateId in remaining;
      PassStep(initial, candidateIds - remaining, published, newResults, db.copies, candidateId);
      assert (candidateIds - remaining) + {candidateId} == candidateIds - (remaining - {candidateId});
      remaining := remaining - {candidateId};
      ghost var before := db.copies;
      var done := PublishCandidate(db, candidateId);
      if done {
        publishedCount := publishedCount + 1;
        published := published + {candidateId};
        AppendOne(old(db.results), newResults, Result(candidateId, CandidateValue(CopiesOf(before, candidateId))));
        newResults := newResults + [Result(candidateId, CandidateValue(CopiesOf(before, candidateId)))];
      }
    }
    assert candidateIds - remaining == candidateIds;
  }

  /** `publishResults`: publishes every owner of a marked copy who has exactly two copies in
      all, saving one result for each and deleting all of that candidate's copies, and
      reports the number published. Notifying a candidate cannot fail the pass and is not
      modelled. */
  method PublishResults(db: Database, session: Session) returns (publishedCount: nat)
    requires db.Valid()
    modifies db, session
    ensures db.Valid()
    ensures publishedCount == |PublishedCandidates(old(db.copies))|
    ensures db.copies == CopiesAfterPublish(old(db.copies))
    ensures |old(db.results)| <= |db.results| && db.results[..|old(db.results)|] == old(db.results)
    ensures PublishesExactly(db.results[|old(db.results)|..], old(db.copies))
    ensures db.users == old(db.users) && db.posts == old(db.posts)
    ensures db.secretCodes == old(db.secretCodes) && db.nextId == old(db.nextId)
    ensures session.data == WithFlash(old(session.data), Success,
      "Results published successfully for " + NatToString(publishedCount) + " candidate(s).")
  {
    var candidateIds := CandidatesWithMarkedCopy(db.copies);
    ghost var initial := db.copies;
    ghost var published: set<Id>, newResults: seq<Result>;
    publishedCount, published, newResults := PublishEach(db, candidateIds);
    PublishFinish(initial, candidateIds, published, newResults, db.copies);
    assert db.results[..|old(db.results)|] == old(db.results);
    assert db.results[|old(db.results)|..] == newResults;
    session.SetFlash(Success, "Results published successfully for " + NatToString(publishedCount) + " candidate(s).");
  }

  /** The end of the pass: every candidate has been visited. */
  lemma PublishFinish(initial: seq<Copy>, candidateIds: set<Id>, published: set<Id>,
                      newResults: seq<Result>, copies: seq<Copy>)
    requires UniqueKeys(CopyKey, initial)
    requires candidateIds == CandidatesWithMarkedCopy(initial)
    requires PassDone(initial, candidateIds, published, newResults, copies)
    ensures published == PublishedCandidates(initial)
    ensures copies == CopiesAfterPublish(initial)
    ensures UniqueKeys(CopyKey, copies)
    ensures PublishesExactly(newResults, initial)
  {
    WithoutKeepsKeys(initial, published);
  }

  // ---------------------------------------------------------------------------
  // Worked passes
  // ---------------------------------------------------------------------------

  /** A candidate with two resolved copies: one whose marks agree (14 and 13, the higher
      counts) and one settled by a third mark (8 and 15 disputed, 10 decides). The pass
      publishes 2/3 of 14 + 10, that is 16, and leaves no copy behind. */
  lemma PublishTwoResolvedCopies()
    ensures var agreed := Copy(1, 7, 1, Some(14.0), Some(13.0), None, Some(3), Some(4), None);
      var settled := Copy(2, 7, 2, Some(8.0), Some(15.0), Some(10.0), Some(3), Some(4), Some(5));
      var copies := [agreed, settled];
      && PublishedCandidates(copies) == {7}
      && CandidateValue(CopiesOf(copies, 7)) == 16.0
      && CopiesAfterPublish(copies) == []
  {
    var agreed := Copy(1, 7, 1, Some(14.0), Some(13.0), None, Some(3), Some(4), None);
    var settled := Copy(2, 7, 2, Some(8.0), Some(15.0), Some(10.0), Some(3), Some(4), Some(5));
    var copies := [agreed, settled];
    assert copies[1..] == [settled] && [settled][1..] == [];
    assert IsMarked(agreed) && IsMarked(settled);
    assert Filter(IsMarked, [settled]) == [settled];
    assert MarkedCopies(copies) == copies;
    assert CopiesOf([settled], 7) == [settled];
    assert CopiesOf(copies, 7) == copies;
    assert CandidatesWithMarkedCopy(copies) == {7};
  }

  /** A candidate with one marked copy and one that nobody has marked yet is still published:
      the re-query counts both copies, and the unmarked one contributes 0. */
  lemma PublishCountsUnresolvedCopy()
    ensures var marked := Copy(1, 7, 1, Some(14.0), Some(13.0), None, Some(3), Some(4), None);
      var pending := Copy(2, 7, 2, None, None, None, None, None, None);
      var copies := [marked, pending];
      && PublishedCandidates(copies) == {7}
      && CandidateValue(CopiesOf(copies, 7)) == 14.0 * AppConstants.ResultCalculationMultiplier
      && CopiesAfterPublish(copies) == []
  {
    var marked := Copy(1, 7, 1, Some(14.0), Some(13.0), None, Some(3), Some(4), None);
    var pending := Copy(2, 7, 2, None, None, None, None, None, None);
    var copies := [marked, pending];
    assert copies[1..] == [pending] && [pending][1..] == [];
    assert IsMarked(marked) && !IsMarked(pending);
    assert Filter(IsMarked, [pending]) == [];
    assert MarkedCopies(copies) == [marked];
    assert CopiesOf([pending], 7) == [pending];
    assert CopiesOf(copies, 7) == copies;
    assert CandidatesWithMarkedCopy(copies) == {7};
  }

  /** A candidate with a single copy, even a marked one, is not published and keeps it. */
  lemma PublishSkipsSingleCopy()
    ensures var only := Copy(1, 7, 1, Some(14.0), Some(13.0), None, Some(3), Some(4), None);
      && PublishedCandidates([only]) == {}
      && CopiesAfterPublish([only]) == [only]
  {
    var only := Copy(1, 7, 1, Some(14.0), Some(13.0), None, Some(3), Some(4), None);
    assert CopiesOf([only], 7) == [only];
    assert CandidatesWithMarkedCopy([only]) == {7};
    WithoutNobody([only]);
  }
}
