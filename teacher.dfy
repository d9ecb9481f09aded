/** `TeacherController`: a teacher submits a batch of marks, each of which goes into the
    first empty mark slot of its copy, and lists the copies assigned to them. */
module Teacher {
  import opened Wrappers
  import opened Sequences
  import opened Models
  import opened Flash
  import opened Text

  /** One element of the submitted batch: a copy identifier and a mark. */
  datatype MarkEntry = MarkEntry(copyId: Id, mark: real)

  // ---------------------------------------------------------------------------
  // Mark slots
  // ---------------------------------------------------------------------------

  /** The three mark slots of a copy, in order. */
  function Marks(c: Copy): seq<Option<real>> {
    [c.mark1, c.mark2, c.mark3]
  }

  function Filled(m: Option<real>): nat {
    if m.Some? then 1 else 0
  }

  /** How many of the three slots hold a mark. */
  function FilledSlots(c: Copy): nat {
    Filled(c.mark1) + Filled(c.mark2) + Filled(c.mark3)
  }

  /** The slots fill from the first: no mark sits after an empty slot. */
  predicate SlotsInOrder(c: Copy) {
    (c.mark2.Some? ==> c.mark1.Some?) && (c.mark3.Some? ==> c.mark2.Some?)
  }

  /** Two copies that differ at most in their marks. */
  predicate SameButMarks(a: Copy, b: Copy) {
    a == b.(mark1 := a.mark1, mark2 := a.mark2, mark3 := a.mark3)
  }

  function Min(a: nat, b: nat): nat {
    if a < b then a else b
  }

  /** The branch of `sendMarks` for a copy that was found: the mark goes into the first
      empty slot; a copy with three marks is skipped. */
  function FillFirstEmpty(c: Copy, m: real): (r: Option<Copy>)
    ensures r.None? <==> c.mark1.Some? && c.mark2.Some? && c.mark3.Some?
    ensures r.Some? ==>
      && SameButMarks(r.value, c)
      && exists k :: 0 <= k < 3 && Marks(c)[k].None? && (forall j :: 0 <= j < k ==> Marks(c)[j].Some?)
                     && Marks(r.value) == Marks(c)[k := Some(m)]
  {
    if c.mark1.None? then
      assert Marks(c)[0].None? && Marks(c.(mark1 := Some(m))) == Marks(c)[0 := Some(m)];
      Some(c.(mark1 := Some(m)))
    else if c.mark2.None? then
      assert Marks(c)[0].Some? && Marks(c)[1].None? && Marks(c.(mark2 := Some(m))) == Marks(c)[1 := Some(m)];
      Some(c.(mark2 := Some(m)))
    else if c.mark3.None? then
      assert Marks(c)[0].Some? && Marks(c)[1].Some? && Marks(c)[2].None?;
      assert Marks(c.(mark3 := Some(m))) == Marks(c)[2 := Some(m)];
      Some(c.(mark3 := Some(m)))
    else None
  }

  /** Filling a slot never overwrites a mark, fills exactly one more slot and keeps the
      slots in order. */
  lemma FillNeverOverwrites(c: Copy, m: real)
    requires FillFirstEmpty(c, m).Some?
    ensures var d := FillFirstEmpty(c, m).value;
      && (forall j :: 0 <= j < 3 && Marks(c)[j].Some? ==> Marks(d)[j] == Marks(c)[j])
      && FilledSlots(d) == FilledSlots(c) + 1
      && (SlotsInOrder(c) ==> SlotsInOrder(d))
  {
    var d := FillFirstEmpty(c, m).value;
    var k :| 0 <= k < 3 && Marks(c)[k].None? && (forall j :: 0 <= j < k ==> Marks(c)[j].Some?)
             && Marks(d) == Marks(c)[k := Some(m)];
    assert d.mark1 == Marks(d)[0] && d.mark2 == Marks(d)[1] && d.mark3 == Marks(d)[2];
    assert c.mark1 == Marks(c)[0] && c.mark2 == Marks(c)[1] && c.mark3 == Marks(c)[2];
  }

  // ---------------------------------------------------------------------------
  // sendMarks
  // ---------------------------------------------------------------------------

  /** One turn of the `sendMarks` loop on the table: the copy with the entry's id, if there
      is one and it has an empty slot, gets the mark; the flag says whether it did. */
  function SubmitOne(copies: seq<Copy>, e: MarkEntry): (r: (seq<Copy>, bool))
    requires UniqueKeys(CopyKey, copies)
    ensures |r.0| == |copies| && UniqueKeys(CopyKey, r.0)
    ensures forall k :: 0 <= k < |copies| ==>
      r.0[k] == if copies[k].id == e.copyId && FillFirstEmpty(copies[k], e.mark).Some?
                then FillFirstEmpty(copies[k], e.mark).value
                else copies[k]
    ensures r.1 <==> exists k :: 0 <= k < |copies| && copies[k].id == e.copyId
                                 && FillFirstEmpty(copies[k], e.mark).Some?
  {
    match FindIndex((c: Copy) => c.id == e.copyId, copies)
    case None => (copies, false)
    case Some(i) =>
      match FillFirstEmpty(copies[i], e.mark)
      case None => (copies, false)
      case Some(d) =>
        ReplaceSameKey(CopyKey, copies, i, d);
        (copies[i := d], true)
  }

  /** The table and the count after the whole batch, entry after entry; each entry sees the
      marks the earlier ones stored. */
  function SubmitAll(copies: seq<Copy>, batch: seq<MarkEntry>): (r: (seq<Copy>, nat))
    requires UniqueKeys(CopyKey, copies)
    ensures |r.0| == |copies| && UniqueKeys(CopyKey, r.0)
    ensures r.1 <= |batch|
  {
    if batch == [] then (copies, 0)
    else
      var before := SubmitAll(copies, batch[..|batch| - 1]);
      var after := SubmitOne(before.0, batch[|batch| - 1]);
      (after.0, before.1 + if after.1 then 1 else 0)
  }

  function SubmittedMessage(updatedCount: nat): string {
    "Marks submitted successfully for " + NatToString(updatedCount) + " paper(s)."
  }

  function NothingUpdatedMessage(): string {
    "No marks were updated."
  }

  /** `sendMarks`: submits the batch entry by entry and counts the copies updated. Entries
      for unknown copies and for copies with three marks are skipped. */
  method SendMarks(db: Database, session: Session, batch: seq<MarkEntry>) returns (updatedCount: nat)
    requires db.Valid()
    modifies db, session
    ensures db.Valid()
    ensures (db.copies, updatedCount) == SubmitAll(old(db.copies), batch)
    ensures db.users == old(db.users) && db.results == old(db.results) && db.posts == old(db.posts)
    ensures db.secretCodes == old(db.secretCodes) && db.nextId == old(db.nextId)
    ensures session.data == if updatedCount > 0
      then WithFlash(old(session.data), Success, SubmittedMessage(updatedCount))
      else WithFlash(old(session.data), Warning, NothingUpdatedMessage())
  {
    updatedCount := SubmitBatch(db, batch);
    if updatedCount > 0 {
      session.SetFlash(Success, SubmittedMessage(updatedCount));
    } else {
      session.SetFlash(Warning, NothingUpdatedMessage());
    }
  }

  /** The loop of `sendMarks`: the entries in order, counting the copies updated. */
  method SubmitBatch(db: Database, batch: seq<MarkEntry>) returns (updatedCount: nat)
    requires db.Valid()
    modifies db
    ensures db.Valid()
    ensures (db.copies, updatedCount) == SubmitAll(old(db.copies), batch)
    ensures db.users == old(db.users) && db.results == old(db.results) && db.posts == old(db.posts)
    ensures db.secretCodes == old(db.secretCodes) && db.nextId == old(db.nextId)
  {
    updatedCount := 0;
    for n := 0 to |batch|
      invariant db.Valid()
      invariant (db.copies, updatedCount) == SubmitAll(old(db.copies), batch[..n])
      invariant db.users == old(db.users) && db.results == old(db.results) && db.posts == old(db.posts)
      invariant db.secretCodes == old(db.secretCodes) && db.nextId == old(db.nextId)
    {
      assert batch[..n + 1][..n] == batch[..n];
      var updated := SubmitEntry(db, batch[n]);
      if updated {
        updatedCount := updatedCount + 1;
      }
    }
    assert batch[..|batch|] == batch;
  }

  /** One turn of the `sendMarks` loop: finds the copy and writes the mark into its first
      empty slot, or skips the entry. */
  method SubmitEntry(db: Database, entry: MarkEntry) returns (updated: bool)
    requires db.Valid()
    modifies db
    ensures db.Valid()
    ensures (db.copies, updated) == SubmitOne(old(db.copies), entry)
    ensures db.users == old(db.users) && db.results == old(db.results) && db.posts == old(db.posts)
    ensures db.secretCodes == old(db.secretCodes) && db.nextId == old(db.nextId)
  {
    var index := FindIndex((c: Copy) => c.id == entry.copyId, db.copies);
    if index.None? {
      return false;
    }
    var i := index.value;
    var copy := db.copies[i];
    if copy.mark1.None? {
      copy := copy.(mark1 := Some(entry.mark));
    } else if copy.mark2.None? {
      copy := copy.(mark2 := Some(entry.mark));
    } else if copy.mark3.None? {
      copy := copy.(mark3 := Some(entry.mark));
    } else {
      return false;
    }
    db.ReplaceCopy(i, copy);
    updated := true;
  }

  /** The number of entries of the batch for a copy. */
  function EntriesFor(batch: seq<MarkEntry>, copyId: Id): nat {
    if batch == [] then 0
    else EntriesFor(batch[..|batch| - 1], copyId) + if batch[|batch| - 1].copyId == copyId then 1 else 0
  }

  /** SubmitOne changes only the copy with the entry's id: it fills one more of its slots
      unless all three are full, keeps every mark it had, copies nothing else, and keeps its
      slots in order. */
  lemma SubmitOneCopy(copies: seq<Copy>, e: MarkEntry, k: nat)
    requires UniqueKeys(CopyKey, copies) && k < |copies|
    ensures var d := SubmitOne(copies, e).0[k];
      && SameButMarks(d, copies[k])
      && FilledSlots(d) == Min(3, FilledSlots(copies[k]) + if copies[k].id == e.copyId then 1 else 0)
      && (forall j :: 0 <= j < 3 && Marks(copies[k])[j].Some? ==> Marks(d)[j] == Marks(copies[k])[j])
      && (SlotsInOrder(copies[k]) ==> SlotsInOrder(d))
  {
    var c := copies[k];
    if c.id == e.copyId && FillFirstEmpty(c, e.mark).Some? {
      FillNeverOverwrites(c, e.mark);
    }
  }

  /** After a batch, each copy has had one slot filled per entry naming it, up to the three
      slots there are; the marks it had are kept, no other field changes, and slots that were
      in order stay in order. */
  lemma {:induction false} SubmitAllCopy(copies: seq<Copy>, batch: seq<MarkEntry>, k: nat)
    requires UniqueKeys(CopyKey, copies) && k < |copies|
    ensures var d := SubmitAll(copies, batch).0[k];
      && SameButMarks(d, copies[k])
      && FilledSlots(d) == Min(3, FilledSlots(copies[k]) + EntriesFor(batch, copies[k].id))
      && (forall j :: 0 <= j < 3 && Marks(copies[k])[j].Some? ==> Marks(d)[j] == Marks(copies[k])[j])
      && (SlotsInOrder(copies[k]) ==> SlotsInOrder(d))
  {
    if batch != [] {
      var prefix := batch[..|batch| - 1];
      var before := SubmitAll(copies, prefix).0;
      SubmitAllCopy(copies, prefix, k);
      SubmitOneCopy(before, batch[|batch| - 1], k);
    }
  }

  /** The marks stored in all copies together. */
  function TotalFilled(copies: seq<Copy>): nat {
    if copies == [] then 0 else TotalFilled(copies[..|copies| - 1]) + FilledSlots(copies[|copies| - 1])
  }

  /** Replacing one copy changes the total by the difference it makes. */
  lemma {:induction false} TotalFilledUpdate(copies: seq<Copy>, i: nat, d: Copy)
    requires i < |copies|
    ensures TotalFilled(copies[i := d]) + FilledSlots(copies[i]) == TotalFilled(copies) + FilledSlots(d)
  {
    var last := |copies| - 1;
    if i < last {
      TotalFilledUpdate(copies[..last], i, d);
      assert copies[i := d][..last] == copies[..last][i := d];
    } else {
      assert copies[i := d][..last] == copies[..last];
    }
  }

  /** The count that `sendMarks` reports is the number of marks it stored: every counted
      entry filled exactly one slot and nothing else was filled. */
  lemma {:induction false} SubmitAllCountsFilledSlots(copies: seq<Copy>, batch: seq<MarkEntry>)
    requires UniqueKeys(CopyKey, copies)
    ensures TotalFilled(SubmitAll(copies, batch).0) == TotalFilled(copies) + SubmitAll(copies, batch).1
  {
    if batch != [] {
      var prefix := batch[..|batch| - 1];
      var e := batch[|batch| - 1];
      SubmitAllCountsFilledSlots(copies, prefix);
      var before := SubmitAll(copies, prefix).0;
      match FindIndex((c: Copy) => c.id == e.copyId, before)
      case None =>
      case Some(i) =>
        match FillFirstEmpty(before[i], e.mark)
        case None =>
        case Some(d) =>
          FillNeverOverwrites(before[i], e.mark);
          TotalFilledUpdate(before, i, d);
    }
  }

  /** Two entries for the same new copy in one batch fill its first and its second slot:
      the second entry sees the mark the first stored. */
  lemma TwoEntriesForOneCopy()
    ensures var c := Copy(1, 7, 2, None, None, None, Some(3), Some(4), None);
      SubmitAll([c], [MarkEntry(1, 12.0), MarkEntry(1, 15.5)])
        == ([c.(mark1 := Some(12.0), mark2 := Some(15.5))], 2)
  {
    var c := Copy(1, 7, 2, None, None, None, Some(3), Some(4), None);
    var batch := [MarkEntry(1, 12.0), MarkEntry(1, 15.5)];
    var c1 := c.(mark1 := Some(12.0));
    assert batch[..1] == [MarkEntry(1, 12.0)] && batch[..1][..0] == [];
    assert SubmitAll([c], []) == ([c], 0);
    var r1 := SubmitOne([c], MarkEntry(1, 12.0));
    assert FillFirstEmpty(c, 12.0) == Some(c1);
    assert r1.0[0] == c1 && r1.0 == [c1] && r1.1;
    assert SubmitAll([c], batch[..1]) == ([c1], 1);
    var c2 := c1.(mark2 := Some(15.5));
    var r2 := SubmitOne([c1], MarkEntry(1, 15.5));
    assert FillFirstEmpty(c1, 15.5) == Some(c2);
    assert r2.0[0] == c2 && r2.0 == [c2] && r2.1;
  }

  /** An entry for an unknown copy, or for a copy whose three slots are full, changes nothing
      and is not counted. */
  lemma SkippedEntries(copies: seq<Copy>, e: MarkEntry)
    requires UniqueKeys(CopyKey, copies)
    requires forall c :: c in copies && c.id == e.copyId ==> c.mark1.Some? && c.mark2.Some? && c.mark3.Some?
    ensures SubmitOne(copies, e) == (copies, false)
  {
    var r := SubmitOne(copies, e);
    forall k | 0 <= k < |copies| && copies[k].id == e.copyId ensures FillFirstEmpty(copies[k], e.mark).None? {
      assert copies[k] in copies;
    }
  }

  // ---------------------------------------------------------------------------
  // getAssignedCopies
  // ---------------------------------------------------------------------------

  /** In how many of a copy's three teacher slots the teacher sits. */
  function SlotsHeld(c: Copy, teacher: Id): nat {
    (if c.teacher1 == Some(teacher) then 1 else 0)
    + (if c.teacher2 == Some(teacher) then 1 else 0)
    + (if c.teacher3 == Some(teacher) then 1 else 0)
  }

  /** `getAssignedCopies`: the copies with the teacher as first teacher, then those with the
      teacher as second teacher, then as third, concatenated without removing duplicates. */
  function AssignedCopies(copies: seq<Copy>, teacher: Id): seq<Copy> {
    Filter((c: Copy) => c.teacher1 == Some(teacher), copies)
    + Filter((c: Copy) => c.teacher2 == Some(teacher), copies)
    + Filter((c: Copy) => c.teacher3 == Some(teacher), copies)
  }

  /** Each copy is listed once per teacher slot the teacher holds on it, and no other copy
      is listed. */
  lemma AssignedCopiesMultiplicity(copies: seq<Copy>, teacher: Id)
    ensures forall c :: multiset(AssignedCopies(copies, teacher))[c] == multiset(copies)[c] * SlotsHeld(c, teacher)
  {
    FilterMultiset((c: Copy) => c.teacher1 == Some(teacher), copies);
    FilterMultiset((c: Copy) => c.teacher2 == Some(teacher), copies);
    FilterMultiset((c: Copy) => c.teacher3 == Some(teacher), copies);
    forall c ensures multiset(AssignedCopies(copies, teacher))[c] == multiset(copies)[c] * SlotsHeld(c, teacher) {
      TimesSlotsHeld(multiset(copies)[c], c, teacher);
    }
  }

  lemma TimesSlotsHeld(m: nat, c: Copy, teacher: Id)
    ensures m * SlotsHeld(c, teacher) == (if c.teacher1 == Some(teacher) then m else 0)
      + (if c.teacher2 == Some(teacher) then m else 0) + (if c.teacher3 == Some(teacher) then m else 0)
  {
    var a := if c.teacher1 == Some(teacher) then 1 else 0;
    var b := if c.teacher2 == Some(teacher) then 1 else 0;
    var d := if c.teacher3 == Some(teacher) then 1 else 0;
    assert m * (a + b + d) == m * a + m * b + m * d;
  }

  /** A teacher assigned as both first and second teacher of a copy sees it twice. */
  lemma DoubleAssignmentListedTwice()
    ensures var c := Copy(1, 7, 2, None, None, None, Some(3), Some(3), None);
      AssignedCopies([c], 3) == [c, c]
  {
    var c := Copy(1, 7, 2, None, None, None, Some(3), Some(3), None);
    AssignedCopiesMultiplicity([c], 3);
    assert multiset(AssignedCopies([c], 3))[c] == 2;
    assert |AssignedCopies([c], 3)| <= 3;
  }
}
