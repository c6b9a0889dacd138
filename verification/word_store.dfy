/**
 The word store: the `word_sets` and `words` tables, seen as a map from set id
 to the set's name and its words. The words are kept in insertion (id) order;
 the queries that read them have no `ORDER BY`, so that order is the model's
 choice, and every drill shuffles what it reads.

 The application keeps one database connection open for its whole life and
 never rolls back, so the store is a pair: the `working` state that every
 statement changes and every later query on the same connection reads, and the
 `committed` state that survives the process. `commit()` copies the whole
 working state, including any statement an earlier operation left pending.
 */
module WordStore {
  import opened Base
  import opened Text

  datatype WordSet = WordSet(name: string, words: seq<Word>)

  /** Both tables, with the next AUTOINCREMENT id of each. */
  datatype Store = Store(sets: map<nat, WordSet>, nextSetId: nat, nextWordId: nat)

  datatype Db = Db(working: Store, committed: Store)

  datatype Status = Saved | Rejected(reason: Error)

  datatype Outcome = Outcome(db: Db, status: Status)

  /** A fresh database file: AUTOINCREMENT ids start at 1. */
  const Fresh: Store := Store(map[], 1, 1)

  predicate IdsBelow(ws: seq<Word>, bound: nat) {
    forall i :: 0 <= i < |ws| ==> ws[i].id < bound
  }

  /** What the schema guarantees: set ids are positive and below the next id,
      and within a set the word ids are distinct and below the next word id. */
  predicate Valid(s: Store) {
    && 1 <= s.nextSetId
    && forall k :: k in s.sets ==>
      && 1 <= k < s.nextSetId
      && DistinctIds(s.sets[k].words)
      && IdsBelow(s.sets[k].words, s.nextWordId)
  }

  lemma FreshValid()
    ensures Valid(Fresh) && Fresh.sets == map[]
  {
  }

  // ---------------------------------------------------------------------------
  // Row counts

  /** The number of `words` rows whose set id is below `n`. */
  function RowsBelow(sets: map<nat, WordSet>, n: nat): nat {
    if n == 0 then 0
    else RowsBelow(sets, n - 1) + (if n - 1 in sets then |sets[n - 1].words| else 0)
  }

  /** `SELECT COUNT(*) FROM words`. */
  function RowCount(s: Store): nat {
    RowsBelow(s.sets, s.nextSetId)
  }

  lemma {:induction false} RowsBelowUpdate(sets: map<nat, WordSet>, k: nat, v: WordSet, n: nat)
    ensures RowsBelow(sets[k := v], n) + (if k in sets && k < n then |sets[k].words| else 0)
         == RowsBelow(sets, n) + (if k < n then |v.words| else 0)
  {
    if n > 0 {
      RowsBelowUpdate(sets, k, v, n - 1);
    }
  }

  lemma {:induction false} RowsBelowRemove(sets: map<nat, WordSet>, k: nat, n: nat)
    ensures RowsBelow(sets - {k}, n) + (if k in sets && k < n then |sets[k].words| else 0)
         == RowsBelow(sets, n)
  {
    if n > 0 {
      RowsBelowRemove(sets, k, n - 1);
    }
  }

  /** Adding a set under the next set id adds its words to the row count. */
  lemma AddedRows(s: Store, v: WordSet, nextWordId: nat)
    requires Valid(s)
    ensures RowCount(Store(s.sets[s.nextSetId := v], s.nextSetId + 1, nextWordId))
         == RowCount(s) + |v.words|
  {
    var id := s.nextSetId;
    var sets' := s.sets[id := v];
    RowsBelowUpdate(s.sets, id, v, id);
    assert id !in s.sets;
  }

  /** Replacing a set's words changes the row count by the difference. */
  lemma ReplacedRows(s: Store, k: nat, v: WordSet, nextWordId: nat)
    requires Valid(s) && k in s.sets
    ensures RowCount(Store(s.sets[k := v], s.nextSetId, nextWordId)) + |s.sets[k].words|
         == RowCount(s) + |v.words|
  {
    RowsBelowUpdate(s.sets, k, v, s.nextSetId);
  }

  // ---------------------------------------------------------------------------
  // Editor rows

  /** A row is kept when both of its stripped fields are non-empty. */
  predicate Kept(row: Pair) {
    Trim(row.turkish) != [] && Trim(row.english) != []
  }

  function StripRow(row: Pair): Pair {
    Pair(Trim(row.turkish), Trim(row.english))
  }

  predicate NoRowKept(rows: seq<Pair>) {
    forall k :: 0 <= k < |rows| ==> !Kept(rows[k])
  }

  /** A stored pair: both fields non-empty and already stripped. */
  predicate Clean(p: Pair) {
    && p.turkish != [] && p.english != []
    && Trim(p.turkish) == p.turkish && Trim(p.english) == p.english
  }

  /** The list comprehension shared by the create and edit screens: every row
      whose stripped fields are both non-empty, stripped, in screen order. */
  function CollectRows(rows: seq<Pair>): (r: seq<Pair>)
    ensures |r| <= |rows|
    ensures r == [] <==> NoRowKept(rows)
    ensures forall i :: 0 <= i < |r| ==> Clean(r[i])
  {
    if rows == [] then []
    else
      var rest := CollectRows(rows[1..]);
      TrimIdempotent(rows[0].turkish);
      TrimIdempotent(rows[0].english);
      assert NoRowKept(rows) <==> !Kept(rows[0]) && NoRowKept(rows[1..]) by {
        assert forall k :: 1 <= k < |rows| ==> rows[k] == rows[1..][k - 1];
      }
      (if Kept(rows[0]) then [StripRow(rows[0])] else []) + rest
  }

  lemma ConcatAssoc<T>(x: seq<T>, y: seq<T>, z: seq<T>)
    ensures x + (y + z) == (x + y) + z
  {
  }

  lemma CollectRowsCons(row: Pair, rows: seq<Pair>)
    ensures CollectRows([row] + rows) == (if Kept(row) then [StripRow(row)] else []) + CollectRows(rows)
  {
    assert ([row] + rows)[0] == row && ([row] + rows)[1..] == rows;
  }

  /** Collecting respects screen order: the rows of a longer screen are
      collected as the rows above followed by the rows below. */
  lemma {:induction false} CollectRowsAppend(a: seq<Pair>, b: seq<Pair>)
    ensures CollectRows(a + b) == CollectRows(a) + CollectRows(b)
  {
    if a == [] {
      assert a + b == b;
    } else {
      var head := if Kept(a[0]) then [StripRow(a[0])] else [];
      assert a + b == [a[0]] + (a[1..] + b);
      assert a == [a[0]] + a[1..];
      CollectRowsCons(a[0], a[1..] + b);
      CollectRowsCons(a[0], a[1..]);
      CollectRowsAppend(a[1..], b);
      ConcatAssoc(head, CollectRows(a[1..]), CollectRows(b));
    }
  }

  /** Every row worth keeping is stored, stripped. */
  lemma {:induction false} CollectRowsComplete(rows: seq<Pair>, k: nat)
    requires k < |rows| && Kept(rows[k])
    ensures StripRow(rows[k]) in CollectRows(rows)
  {
    if k > 0 {
      assert rows[1..][k - 1] == rows[k];
      CollectRowsComplete(rows[1..], k - 1);
    }
  }

  /** Every stored pair comes from a row worth keeping. */
  lemma {:induction false} CollectRowsSound(rows: seq<Pair>, p: Pair)
    requires p in CollectRows(rows)
    ensures exists k :: 0 <= k < |rows| && Kept(rows[k]) && StripRow(rows[k]) == p
  {
    if !(Kept(rows[0]) && p == StripRow(rows[0])) {
      assert p in CollectRows(rows[1..]);
      CollectRowsSound(rows[1..], p);
      var k :| 0 <= k < |rows[1..]| && Kept(rows[1..][k]) && StripRow(rows[1..][k]) == p;
      assert rows[k + 1] == rows[1..][k];
    }
  }

  /** One row of an editor as the save reads it. The delete button of a row
      destroys the row's frame but leaves its two entries in the editor's list,
      and reading a destroyed entry raises `TclError`. */
  datatype EditorRow = Shown(pair: Pair) | Destroyed

  predicate AnyDestroyed(screen: seq<EditorRow>) {
    exists k :: 0 <= k < |screen| && screen[k].Destroyed?
  }

  /** The typed text of a screen without destroyed rows. */
  function Texts(screen: seq<EditorRow>): (r: seq<Pair>)
    requires !AnyDestroyed(screen)
    ensures |r| == |screen|
    ensures forall k :: 0 <= k < |screen| ==> screen[k] == Shown(r[k])
  {
    seq(|screen|, k requires 0 <= k < |screen| => screen[k].pair)
  }

  // ---------------------------------------------------------------------------
  // Repeated English terms

  /** Two pairs share an English term. Inserting both into one set violates
      `UNIQUE(set_id, english)` when the import script created the table. */
  predicate EnglishRepeats(pairs: seq<Pair>) {
    exists i, j :: 0 <= i < j < |pairs| && pairs[i].english == pairs[j].english
  }

  /** Scanning from `i`, the position of the first pair whose English term
      occurs earlier, or the length when there is none. */
  function InsertedFrom(pairs: seq<Pair>, i: nat): (n: nat)
    requires i <= |pairs| && !EnglishRepeats(pairs[..i])
    ensures i <= n <= |pairs| && !EnglishRepeats(pairs[..n])
    ensures n < |pairs| ==> exists j :: 0 <= j < n && pairs[j].english == pairs[n].english
    decreases |pairs| - i
  {
    if i == |pairs| then i
    else if exists j :: 0 <= j < i && pairs[j].english == pairs[i].english then i
    else
      assert !EnglishRepeats(pairs[..i + 1]) by {
        var front := pairs[..i + 1];
        forall a, b | 0 <= a < b < i + 1 ensures front[a].english != front[b].english {
          if b < i {
            assert pairs[..i][a] == pairs[a] && pairs[..i][b] == pairs[b];
          }
        }
      }
      InsertedFrom(pairs, i + 1)
  }

  /** How many pairs the insert loop gets through before the first refused
      insert: the longest prefix without a repeated English term. All of them
      exactly when no term repeats. */
  function Inserted(pairs: seq<Pair>): (n: nat)
    ensures n <= |pairs| && !EnglishRepeats(pairs[..n])
    ensures n < |pairs| ==> exists j :: 0 <= j < n && pairs[j].english == pairs[n].english
    ensures n == |pairs| <==> !EnglishRepeats(pairs)
  {
    assert pairs[..0] == [];
    var n := InsertedFrom(pairs, 0);
    assert n == |pairs| ==> pairs[..n] == pairs;
    n
  }

  // ---------------------------------------------------------------------------
  // Inserting words

  /** The rows `INSERT INTO words` creates for `pairs`, numbered from `start`. */
  function NumberWords(pairs: seq<Pair>, start: nat): (r: seq<Word>)
    ensures |r| == |pairs|
    ensures DistinctIds(r)
    ensures forall i :: 0 <= i < |r| ==> start <= r[i].id < start + |pairs|
    ensures PairsOf(r) == pairs
  {
    seq(|pairs|, i requires 0 <= i < |pairs| => Word(start + i, pairs[i].turkish, pairs[i].english))
  }

  /** The (turkish, english) text of each word. */
  function PairsOf(ws: seq<Word>): (r: seq<Pair>)
    ensures |r| == |ws|
    ensures forall i :: 0 <= i < |ws| ==> r[i] == Pair(ws[i].turkish, ws[i].english)
  {
    seq(|ws|, i requires 0 <= i < |ws| => Pair(ws[i].turkish, ws[i].english))
  }

  /** `SELECT id, turkish, english FROM words WHERE set_id = ?`: the words of
      the set, none for an unknown id, returned in id order (the query itself
      fixes no order). */
  function Fetch(s: Store, setId: nat): (r: seq<Word>)
    ensures setId !in s.sets ==> r == []
    ensures Valid(s) ==> DistinctIds(r)
  {
    if setId in s.sets then s.sets[setId].words else []
  }

  // ---------------------------------------------------------------------------
  // Operations

  /** The save goes through: a non-blank name, no destroyed row, at least one
      complete row, and no English term twice when the table is `unique`. */
  predicate Acceptable(name: string, screen: seq<EditorRow>, unique: bool) {
    && Trim(name) != []
    && !AnyDestroyed(screen)
    && !NoRowKept(Texts(screen))
    && !(unique && EnglishRepeats(CollectRows(Texts(screen))))
  }

  /** `after` is `before` with one new set under the next set id, named by the
      stripped name and holding `pairs`, every other set untouched. */
  ghost predicate HoldsNewSet(before: Store, name: string, pairs: seq<Pair>, after: Store) {
    var id := before.nextSetId;
    && id !in before.sets
    && after.nextSetId == id + 1
    && after.sets.Keys == before.sets.Keys + {id}
    && (forall k :: k in before.sets ==> after.sets[k] == before.sets[k])
    && after.sets[id].name == Trim(name)
    && PairsOf(after.sets[id].words) == pairs
  }

  /** A new set named `name` with the words `pairs`, inserted under the next ids. */
  function WithNewSet(s: Store, name: string, pairs: seq<Pair>): (r: Store)
    requires Valid(s)
    ensures Valid(r) && HoldsNewSet(s, name, pairs, r)
    ensures RowCount(r) == RowCount(s) + |pairs|
  {
    var added := WordSet(Trim(name), NumberWords(pairs, s.nextWordId));
    var r := Store(s.sets[s.nextSetId := added], s.nextSetId + 1, s.nextWordId + |pairs|);
    AddedRows(s, added, s.nextWordId + |pairs|);
    ReplaceKeepsValid(s, s.nextSetId, Trim(name), added.words, r);
    r
  }

  /** Saving the "new set" screen. The name is stripped and checked, then the
      rows are read (a destroyed row raises here, before any write) and
      collected. The set and its words are inserted in order and committed.
      `unique` says whether the `words` table carries `UNIQUE(set_id, english)`:
      then the first collected pair repeating an English term raises, after the
      set and the pairs before it were inserted, and those inserts stay pending
      on the connection. */
  function CreateSet(db: Db, name: string, screen: seq<EditorRow>, unique: bool): (o: Outcome)
    requires Valid(db.working)
    ensures Valid(o.db.working)
    ensures o.status == Saved <==> Acceptable(name, screen, unique)
    ensures o.status.Rejected? ==> o.db.committed == db.committed
    ensures Trim(name) == [] ==> o == Outcome(db, Rejected(EmptyName))
    ensures Trim(name) != [] && AnyDestroyed(screen) ==> o == Outcome(db, Rejected(DestroyedRow))
    ensures Trim(name) != [] && !AnyDestroyed(screen) && NoRowKept(Texts(screen)) ==>
      o == Outcome(db, Rejected(NoWords))
    ensures o.status == Rejected(DuplicateEnglish) <==>
      Trim(name) != [] && !AnyDestroyed(screen) && !NoRowKept(Texts(screen))
      && unique && EnglishRepeats(CollectRows(Texts(screen)))
    ensures o.status == Rejected(DuplicateEnglish) ==>
      var pairs := CollectRows(Texts(screen));
      HoldsNewSet(db.working, name, pairs[..Inserted(pairs)], o.db.working)
    ensures o.status == Saved ==>
      var pairs := CollectRows(Texts(screen));
      && o.db.committed == o.db.working
      && HoldsNewSet(db.working, name, pairs, o.db.working)
      && RowCount(o.db.working) == RowCount(db.working) + |pairs|
  {
    if Trim(name) == [] then Outcome(db, Rejected(EmptyName))
    else if AnyDestroyed(screen) then Outcome(db, Rejected(DestroyedRow))
    else
      var pairs := CollectRows(Texts(screen));
      if pairs == [] then Outcome(db, Rejected(NoWords))
      else if unique && EnglishRepeats(pairs) then
        Outcome(Db(WithNewSet(db.working, name, pairs[..Inserted(pairs)]), db.committed), Rejected(DuplicateEnglish))
      else
        var after := WithNewSet(db.working, name, pairs);
        Outcome(Db(after, after), Saved)
  }

  /** Giving set `k` the words `ws` and raising the counters keeps the store valid. */
  lemma ReplaceKeepsValid(s: Store, k: nat, name: string, ws: seq<Word>, after: Store)
    requires Valid(s) && 1 <= k < after.nextSetId && s.nextSetId <= after.nextSetId
    requires s.nextWordId <= after.nextWordId
    requires DistinctIds(ws) && IdsBelow(ws, after.nextWordId)
    requires after.sets == s.sets[k := WordSet(name, ws)]
    ensures Valid(after)
  {
  }

  /** Set `setId` renamed and holding `pairs` as new words; with no pairs this
      is the state right after the UPDATE and the DELETE of the edit. */
  function Replaced(s: Store, setId: nat, name: string, pairs: seq<Pair>): (r: Store)
    requires Valid(s) && setId in s.sets
    ensures Valid(r)
    ensures r.sets == s.sets[setId := WordSet(name, NumberWords(pairs, s.nextWordId))]
    ensures PairsOf(r.sets[setId].words) == pairs
    ensures RowCount(r) + |s.sets[setId].words| == RowCount(s) + |pairs|
  {
    var ws := NumberWords(pairs, s.nextWordId);
    var r := Store(s.sets[setId := WordSet(name, ws)], s.nextSetId, s.nextWordId + |pairs|);
    ReplaceKeepsValid(s, setId, name, ws, r);
    ReplacedRows(s, setId, WordSet(name, ws), s.nextWordId + |pairs|);
    r
  }

  /** Saving the edit screen, as the application does it: after the name check
      it renames the set and deletes its words, and only then reads and collects
      the rows and inserts them. A destroyed row, no complete row, or (under
      `unique`) a repeated English term stops it without a commit: the rename,
      the deletion and the pairs inserted so far stay pending in the working
      state. */
  function SaveChanges(db: Db, setId: nat, newName: string, screen: seq<EditorRow>, unique: bool): (o: Outcome)
    requires Valid(db.working) && setId in db.working.sets
    ensures Valid(o.db.working)
    ensures o.status == Saved <==> Acceptable(newName, screen, unique)
    ensures o.status.Rejected? ==> o.db.committed == db.committed
    ensures Trim(newName) == [] ==> o == Outcome(db, Rejected(EmptyName))
    ensures Trim(newName) != [] && (AnyDestroyed(screen) || NoRowKept(Texts(screen))) ==>
      && o.status == (if AnyDestroyed(screen) then Rejected(DestroyedRow) else Rejected(NoWords))
      && o.db.working == db.working.(sets := db.working.sets[setId := WordSet(Trim(newName), [])])
    ensures o.status == Rejected(DuplicateEnglish) <==>
      Trim(newName) != [] && !AnyDestroyed(screen) && !NoRowKept(Texts(screen))
      && unique && EnglishRepeats(CollectRows(Texts(screen)))
    ensures o.status == Rejected(DuplicateEnglish) ==>
      var pairs := CollectRows(Texts(screen));
      && o.db.working.sets.Keys == db.working.sets.Keys
      && (forall k :: k in db.working.sets && k != setId ==> o.db.working.sets[k] == db.working.sets[k])
      && o.db.working.sets[setId].name == Trim(newName)
      && PairsOf(o.db.working.sets[setId].words) == pairs[..Inserted(pairs)]
    ensures o.status == Saved ==> SavedEdit(db, setId, newName, CollectRows(Texts(screen)), o.db)
  {
    var name := Trim(newName);
    if name == [] then Outcome(db, Rejected(EmptyName))
    else
      var s := db.working;
      var staged := Replaced(s, setId, name, []);
      if AnyDestroyed(screen) then Outcome(Db(staged, db.committed), Rejected(DestroyedRow))
      else
        var pairs := CollectRows(Texts(screen));
        if pairs == [] then Outcome(Db(staged, db.committed), Rejected(NoWords))
        else if unique && EnglishRepeats(pairs) then
          Outcome(Db(Replaced(s, setId, name, pairs[..Inserted(pairs)]), db.committed), Rejected(DuplicateEnglish))
        else
          var after := Replaced(s, setId, name, pairs);
          Outcome(Db(after, after), Saved)
  }

  /** A successful edit: committed, the set renamed to the stripped name, its
      words exactly `pairs`, every other set untouched. */
  ghost predicate SavedEdit(db: Db, setId: nat, newName: string, pairs: seq<Pair>, after: Db)
    requires setId in db.working.sets
  {
    && after.committed == after.working
    && after.working.sets.Keys == db.working.sets.Keys
    && (forall k :: k in db.working.sets && k != setId ==> after.working.sets[k] == db.working.sets[k])
    && after.working.sets[setId].name == Trim(newName)
    && PairsOf(after.working.sets[setId].words) == pairs
    && RowCount(after.working) + |db.working.sets[setId].words| == RowCount(db.working) + |pairs|
  }

  /** The edit validated before any write: every check, including the
      repeated-term check the database would make, comes first, so that a
      rejection writes nothing; an acceptable edit does what `SaveChanges`
      does. */
  function SaveChangesAtomic(db: Db, setId: nat, newName: string, screen: seq<EditorRow>, unique: bool): (o: Outcome)
    requires Valid(db.working) && setId in db.working.sets
    ensures Valid(o.db.working)
    ensures o.status.Rejected? ==> o.db == db
    ensures Trim(newName) == [] ==> o.status == Rejected(EmptyName)
    ensures o.status == Saved <==> Acceptable(newName, screen, unique)
    ensures o.status == Saved ==> SavedEdit(db, setId, newName, CollectRows(Texts(screen)), o.db)
  {
    if Trim(newName) == [] then Outcome(db, Rejected(EmptyName))
    else if AnyDestroyed(screen) then Outcome(db, Rejected(DestroyedRow))
    else
      var pairs := CollectRows(Texts(screen));
      if pairs == [] then Outcome(db, Rejected(NoWords))
      else if unique && EnglishRepeats(pairs) then Outcome(db, Rejected(DuplicateEnglish))
      else
        var after := Replaced(db.working, setId, Trim(newName), pairs);
        Outcome(Db(after, after), Saved)
  }

  /** The two edits give the same verdict on every input, and the same
      database whenever the name is blank or the edit is acceptable. */
  lemma AtomicAgreesOnValidEdits(db: Db, setId: nat, newName: string, screen: seq<EditorRow>, unique: bool)
    requires Valid(db.working) && setId in db.working.sets
    ensures SaveChangesAtomic(db, setId, newName, screen, unique).status
         == SaveChanges(db, setId, newName, screen, unique).status
    ensures Trim(newName) == [] || Acceptable(newName, screen, unique) ==>
      SaveChangesAtomic(db, setId, newName, screen, unique) == SaveChanges(db, setId, newName, screen, unique)
  {
  }

  /** Deleting a set after the confirmation prompt: its words, then the set,
      then commit. Declining the prompt changes nothing. */
  function DeleteSet(db: Db, setId: nat, confirmed: bool): (r: Db)
    requires Valid(db.working)
    ensures Valid(r.working)
    ensures !confirmed ==> r == db
    ensures confirmed ==>
      && r.committed == r.working
      && r.working.sets.Keys == db.working.sets.Keys - {setId}
      && (forall k :: k in r.working.sets ==> r.working.sets[k] == db.working.sets[k])
      && Fetch(r.working, setId) == []
      && RowCount(r.working) + |Fetch(db.working, setId)| == RowCount(db.working)
  {
    if !confirmed then db
    else
      var s := db.working;
      var after := s.(sets := s.sets - {setId});
      RowsBelowRemove(s.sets, setId, s.nextSetId);
      Db(after, after)
  }

  /** What the next run of the application sees: closing the connection
      without a commit discards the pending statements. */
  function Reopen(db: Db): (r: Db)
    ensures r.working == db.committed && r.committed == db.committed
  {
    Db(db.committed, db.committed)
  }

  /** A created set reads back as the collected rows: as a multiset, which is
      all the query promises, and in the model's id order as exactly that
      sequence. */
  lemma CreateThenFetch(db: Db, name: string, screen: seq<EditorRow>, unique: bool)
    requires Valid(db.working)
    requires CreateSet(db, name, screen, unique).status == Saved
    ensures multiset(PairsOf(Fetch(CreateSet(db, name, screen, unique).db.committed, db.working.nextSetId)))
         == multiset(CollectRows(Texts(screen)))
    ensures PairsOf(Fetch(CreateSet(db, name, screen, unique).db.committed, db.working.nextSetId))
         == CollectRows(Texts(screen))
  {
  }

  /** After a confirmed delete no word of the set can be read back, neither now
      nor after a restart. */
  lemma DeleteThenFetch(db: Db, setId: nat)
    requires Valid(db.working)
    ensures Fetch(DeleteSet(db, setId, true).working, setId) == []
    ensures Fetch(Reopen(DeleteSet(db, setId, true)).working, setId) == []
  {
  }
}
