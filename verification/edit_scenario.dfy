/**
 What an aborted save leaves behind. The edit screen, given a valid name,
 renames the set and deletes its words before it reads the rows. When the rows
 then turn out to be unusable (none complete, or one destroyed with its delete
 button), it stops without a commit. The connection stays open, so the next
 operation that commits (creating, editing or deleting any set) makes the
 emptied set permanent, and written recall on it then divides by zero. The
 atomic edit, which validates first, leaves the set intact.

 The same happens to a new set whose rows repeat an English term when the
 `words` table carries `UNIQUE(set_id, english)`: the set and the words before
 the repeat are left pending and the next commit keeps them.
 */
module EditScenario {
  import opened Base
  import opened Text
  import opened WordStore
  import opened WrittenRecall
  import opened Results

  /** As written: an edit stopped after the name check, followed by any
      successful new set, commits the rename and the deletion. The set is left
      without words, and writing practice on it reaches the result screen with
      a total of zero. */
  lemma RejectedEditEmptiesSet(db: Db, setId: nat, newName: string, screen: seq<EditorRow>,
                               otherName: string, otherScreen: seq<EditorRow>, unique: bool, language: Language)
    requires Valid(db.working) && setId in db.working.sets
    requires Trim(newName) != [] && (AnyDestroyed(screen) || NoRowKept(Texts(screen)))
    requires Acceptable(otherName, otherScreen, unique)
    ensures var edit := SaveChanges(db, setId, newName, screen, unique);
      var create := CreateSet(edit.db, otherName, otherScreen, unique);
      && edit.status.Rejected?
      && Fetch(edit.db.working, setId) == []
      && create.status == Saved
      && setId in create.db.committed.sets
      && create.db.committed.sets[setId] == WordSet(Trim(newName), [])
      && Finish(Start(Fetch(create.db.committed, setId), language, [])) == Err(DivisionByZero)
  {
    var edit := SaveChanges(db, setId, newName, screen, unique);
    var create := CreateSet(edit.db, otherName, otherScreen, unique);
    assert setId in edit.db.working.sets;
  }

  /** Without a later commit the damage is only in the open connection: a
      restart brings the set back as it was committed. */
  lemma RejectedEditUndoneByRestart(db: Db, setId: nat, newName: string, screen: seq<EditorRow>, unique: bool)
    requires Valid(db.working) && setId in db.working.sets
    ensures var edit := SaveChanges(db, setId, newName, screen, unique);
      edit.status.Rejected? ==> Reopen(edit.db) == Reopen(db)
  {
  }

  /** Corrected: with the atomic edit the same sequence keeps the set's name
      and words, and the new set is added beside it. */
  lemma AtomicEditKeepsSet(db: Db, setId: nat, newName: string, screen: seq<EditorRow>,
                           otherName: string, otherScreen: seq<EditorRow>, unique: bool)
    requires Valid(db.working) && setId in db.working.sets
    requires Trim(newName) != [] && (AnyDestroyed(screen) || NoRowKept(Texts(screen)))
    requires Acceptable(otherName, otherScreen, unique)
    ensures var edit := SaveChangesAtomic(db, setId, newName, screen, unique);
      var create := CreateSet(edit.db, otherName, otherScreen, unique);
      && edit.status.Rejected?
      && edit.db == db
      && create.status == Saved
      && create.db.committed.sets[setId] == db.working.sets[setId]
  {
  }

  /** A new set whose rows repeat an English term, under the UNIQUE
      constraint: the save fails, but the next successful new set commits the
      failed one too, holding only the rows before the repeat. */
  lemma RepeatedTermLeavesPartialSet(db: Db, name: string, screen: seq<EditorRow>,
                                     otherName: string, otherScreen: seq<EditorRow>)
    requires Valid(db.working)
    requires Trim(name) != [] && !AnyDestroyed(screen)
    requires EnglishRepeats(CollectRows(Texts(screen)))
    requires Acceptable(otherName, otherScreen, true)
    ensures var failed := CreateSet(db, name, screen, true);
      var create := CreateSet(failed.db, otherName, otherScreen, true);
      var pairs := CollectRows(Texts(screen));
      var id := db.working.nextSetId;
      && failed.status == Rejected(DuplicateEnglish)
      && failed.db.committed == db.committed
      && create.status == Saved
      && id in create.db.committed.sets
      && create.db.committed.sets[id].name == Trim(name)
      && PairsOf(create.db.committed.sets[id].words) == pairs[..Inserted(pairs)]
      && Inserted(pairs) < |pairs|
  {
    var pairs := CollectRows(Texts(screen));
    assert !NoRowKept(Texts(screen)) by {
      var i, j :| 0 <= i < j < |pairs| && pairs[i].english == pairs[j].english;
    }
  }
}
