/**
 The JSON import script. It reads a mapping {set name -> {english -> turkish}}
 and, for every top-level key in order, inserts a new set and then one word
 per inner entry, with the English term stripped and the Turkish term stored
 as given. An insert the database refuses is skipped with a warning: a JSON
 `null` violates `turkish NOT NULL`, and when the script itself created the
 `words` table its `UNIQUE(set_id, english)` refuses a second word with the
 same stripped English term in one set. `successed` counts the inserts that
 went through; everything is committed at the end.

 `unique` says which schema the `words` table has: the script's (with the
 UNIQUE constraint) or the application's (without it), whichever created the
 table first.
 */
module JsonImport {
  import opened Base
  import opened Text
  import opened WordStore

  /** One inner entry: the English key and the Turkish value, `None` for
      JSON `null`. */
  datatype Entry = Entry(english: string, turkish: Option<string>)

  /** One top-level key and its inner mapping, in file order. */
  datatype JsonSet = JsonSet(name: string, entries: seq<Entry>)

  /** The words of the set being filled, the next word id, and the number of
      inserts that went through. */
  datatype Imported = Imported(words: seq<Word>, nextId: nat, inserted: nat)

  datatype ImportResult = ImportResult(store: Store, successed: nat)

  function EnglishOf(ws: seq<Word>): set<string> {
    set w | w in ws :: w.english
  }

  /** No two words share an English term: what `UNIQUE(set_id, english)`
      guarantees of one set. */
  predicate EnglishDistinct(ws: seq<Word>) {
    forall i, j :: 0 <= i < j < |ws| ==> ws[i].english != ws[j].english
  }

  /** The database accepts the insert of entry `e` into a set holding
      `words`. */
  predicate Accepted(words: seq<Word>, e: Entry, unique: bool) {
    e.turkish.Some? && !(unique && Trim(e.english) in EnglishOf(words))
  }

  /** Insert the entries in order into a set holding `words`. */
  function ImportEntries(words: seq<Word>, entries: seq<Entry>, nextId: nat, unique: bool): (r: Imported)
    requires IdsBelow(words, nextId)
    ensures |words| <= |r.words| && r.words[..|words|] == words
    ensures r.inserted == |r.words| - |words| <= |entries|
    ensures r.nextId == nextId + r.inserted
    decreases |entries|
  {
    if entries == [] then Imported(words, nextId, 0)
    else
      var e := entries[0];
      if !Accepted(words, e, unique) then
        ImportEntries(words, entries[1..], nextId, unique)
      else
        var added := words + [Word(nextId, e.turkish.value, Trim(e.english))];
        var r := ImportEntries(added, entries[1..], nextId + 1, unique);
        assert r.words[..|words|] == added[..|words|];
        Imported(r.words, r.nextId, r.inserted + 1)
  }

  /** The inserted words get fresh ids from `nextId` on, so the set keeps
      distinct ids below the next id. */
  lemma {:induction false} ImportedIds(words: seq<Word>, entries: seq<Entry>, nextId: nat, unique: bool)
    requires IdsBelow(words, nextId) && DistinctIds(words)
    ensures var r := ImportEntries(words, entries, nextId, unique);
      IdsBelow(r.words, r.nextId) && DistinctIds(r.words)
    decreases |entries|
  {
    if entries != [] {
      var e := entries[0];
      if !Accepted(words, e, unique) {
        ImportedIds(words, entries[1..], nextId, unique);
      } else {
        var added := words + [Word(nextId, e.turkish.value, Trim(e.english))];
        assert DistinctIds(added) by {
          forall i | 0 <= i < |words| ensures added[i].id < nextId {
            assert added[i] == words[i];
          }
        }
        ImportedIds(added, entries[1..], nextId + 1, unique);
      }
    }
  }

  lemma EnglishOfAppend(ws: seq<Word>, w: Word)
    ensures EnglishOf(ws + [w]) == EnglishOf(ws) + {w.english}
  {
    forall x | x in EnglishOf(ws + [w]) ensures x in EnglishOf(ws) + {w.english} {
      var v :| v in ws + [w] && v.english == x;
      if v != w {
        assert v in ws;
      }
    }
    forall x | x in EnglishOf(ws) ensures x in EnglishOf(ws + [w]) {
      var v :| v in ws && v.english == x;
      assert v in ws + [w];
    }
    assert w in ws + [w];
  }

  /** The stripped English keys of the entries whose value is not null. */
  function Keys(entries: seq<Entry>): set<string> {
    set e | e in entries && e.turkish.Some? :: Trim(e.english)
  }

  lemma KeysCons(entries: seq<Entry>)
    requires entries != []
    ensures Keys(entries) == Keys(entries[1..]) +
      (if entries[0].turkish.Some? then {Trim(entries[0].english)} else {})
  {
    assert entries == [entries[0]] + entries[1..];
  }

  /** After the import the set's English terms are its old ones plus the
      stripped key of every non-null entry, in either schema: a refused
      duplicate is already there. */
  lemma {:induction false} ImportedEnglish(words: seq<Word>, entries: seq<Entry>, nextId: nat, unique: bool)
    requires IdsBelow(words, nextId)
    ensures EnglishOf(ImportEntries(words, entries, nextId, unique).words) == EnglishOf(words) + Keys(entries)
    decreases |entries|
  {
    if entries != [] {
      var e := entries[0];
      KeysCons(entries);
      if !Accepted(words, e, unique) {
        ImportedEnglish(words, entries[1..], nextId, unique);
        assert ImportEntries(words, entries, nextId, unique) == ImportEntries(words, entries[1..], nextId, unique);
      } else {
        var w := Word(nextId, e.turkish.value, Trim(e.english));
        ImportedEnglish(words + [w], entries[1..], nextId + 1, unique);
        EnglishOfAppend(words, w);
        assert ImportEntries(words, entries, nextId, unique).words
            == ImportEntries(words + [w], entries[1..], nextId + 1, unique).words;
      }
    }
  }

  /** The word was made from one of the entries: its Turkish term is the
      entry's value and its English term the entry's stripped key. */
  ghost predicate Sourced(w: Word, entries: seq<Entry>) {
    exists e :: e in entries && e.turkish == Some(w.turkish) && Trim(e.english) == w.english
  }

  /** Every word of `ws` from position `from` on was made from an entry. */
  ghost predicate AllSourced(ws: seq<Word>, from: nat, entries: seq<Entry>) {
    forall i :: from <= i < |ws| ==> Sourced(ws[i], entries)
  }

  lemma SourcedInTail(w: Word, entries: seq<Entry>)
    requires entries != [] && Sourced(w, entries[1..])
    ensures Sourced(w, entries)
  {
    var e :| e in entries[1..] && e.turkish == Some(w.turkish) && Trim(e.english) == w.english;
    assert e in entries;
  }

  /** Every inserted word comes from a non-null entry: English stripped,
      Turkish exactly as in the file. */
  lemma {:induction false} ImportedFromEntries(words: seq<Word>, entries: seq<Entry>, nextId: nat, unique: bool)
    requires IdsBelow(words, nextId)
    ensures AllSourced(ImportEntries(words, entries, nextId, unique).words, |words|, entries)
    decreases |entries|
  {
    if entries != [] {
      var e := entries[0];
      var r := ImportEntries(words, entries, nextId, unique);
      if !Accepted(words, e, unique) {
        ImportedFromEntries(words, entries[1..], nextId, unique);
        var rest := ImportEntries(words, entries[1..], nextId, unique);
        assert r == rest;
        assert AllSourced(rest.words, |words|, entries[1..]);
        forall i | |words| <= i < |r.words| ensures Sourced(r.words[i], entries) {
          assert Sourced(rest.words[i], entries[1..]);
          SourcedInTail(r.words[i], entries);
        }
      } else {
        var added := words + [Word(nextId, e.turkish.value, Trim(e.english))];
        ImportedFromEntries(added, entries[1..], nextId + 1, unique);
        var rest := ImportEntries(added, entries[1..], nextId + 1, unique);
        assert r.words == rest.words;
        assert AllSourced(rest.words, |added|, entries[1..]);
        forall i | |words| <= i < |r.words| ensures Sourced(r.words[i], entries) {
          if i == |words| {
            assert r.words[i] == added[|words|];
            assert e in entries && e.turkish == Some(r.words[i].turkish) && Trim(e.english) == r.words[i].english;
          } else {
            assert Sourced(rest.words[i], entries[1..]);
            SourcedInTail(r.words[i], entries);
          }
        }
      }
    }
  }

  /** With the UNIQUE constraint a set never gets two words with the same
      English term. */
  lemma {:induction false} UniqueKeepsEnglishDistinct(words: seq<Word>, entries: seq<Entry>, nextId: nat)
    requires IdsBelow(words, nextId) && EnglishDistinct(words)
    ensures EnglishDistinct(ImportEntries(words, entries, nextId, true).words)
    decreases |entries|
  {
    if entries != [] {
      var e := entries[0];
      if !Accepted(words, e, true) {
        UniqueKeepsEnglishDistinct(words, entries[1..], nextId);
      } else {
        var added := words + [Word(nextId, e.turkish.value, Trim(e.english))];
        assert EnglishDistinct(added) by {
          forall i | 0 <= i < |words| ensures words[i].english != Trim(e.english) {
            assert words[i] in words;
          }
        }
        UniqueKeepsEnglishDistinct(added, entries[1..], nextId + 1);
      }
    }
  }

  /** The number of entries whose value is not null. */
  function NonNull(entries: seq<Entry>): (n: nat)
    ensures n <= |entries|
  {
    if entries == [] then 0 else (if entries[0].turkish.Some? then 1 else 0) + NonNull(entries[1..])
  }

  /** Without the UNIQUE constraint only the nulls are refused. */
  lemma {:induction false} WithoutUniqueOnlyNullsSkip(words: seq<Word>, entries: seq<Entry>, nextId: nat)
    requires IdsBelow(words, nextId)
    ensures ImportEntries(words, entries, nextId, false).inserted == NonNull(entries)
    decreases |entries|
  {
    if entries != [] {
      var e := entries[0];
      if !Accepted(words, e, false) {
        WithoutUniqueOnlyNullsSkip(words, entries[1..], nextId);
      } else {
        var added := words + [Word(nextId, e.turkish.value, Trim(e.english))];
        WithoutUniqueOnlyNullsSkip(added, entries[1..], nextId + 1);
      }
    }
  }

  /** Distinct English terms make the set of terms as large as the set. */
  lemma EnglishCard(ws: seq<Word>)
    requires EnglishDistinct(ws)
    ensures |EnglishOf(ws)| == |ws|
  {
    var terms := seq(|ws|, i requires 0 <= i < |ws| => ws[i].english);
    assert Distinct(terms);
    DistinctCard(terms);
    assert Elems(terms) == EnglishOf(ws) by {
      forall x | x in terms ensures x in EnglishOf(ws) {
        var i :| 0 <= i < |terms| && terms[i] == x;
        assert ws[i] in ws;
      }
      forall x | x in EnglishOf(ws) ensures x in terms {
        var w :| w in ws && w.english == x;
        var i :| 0 <= i < |ws| && ws[i] == w;
        assert terms[i] == x;
      }
    }
  }

  /** With the UNIQUE constraint the counter is the number of stripped keys
      (of non-null entries) that the set did not hold yet. */
  lemma UniqueCountsNewKeys(words: seq<Word>, entries: seq<Entry>, nextId: nat)
    requires IdsBelow(words, nextId) && EnglishDistinct(words)
    ensures ImportEntries(words, entries, nextId, true).inserted == |Keys(entries) - EnglishOf(words)|
  {
    var r := ImportEntries(words, entries, nextId, true);
    ImportedEnglish(words, entries, nextId, true);
    UniqueKeepsEnglishDistinct(words, entries, nextId);
    EnglishCard(words);
    EnglishCard(r.words);
    var before := EnglishOf(words);
    var added := Keys(entries) - before;
    assert EnglishOf(r.words) == before + added;
    assert before * added == {};
  }

  /** The number of inner entries in the file. */
  function EntryCount(json: seq<JsonSet>): nat {
    if json == [] then 0 else |json[0].entries| + EntryCount(json[1..])
  }

  /** One top-level key: insert a new set under the next set id (the `name`
      column has no UNIQUE constraint, so this insert is never refused), then
      its entries. */
  function AddSet(s: Store, js: JsonSet, unique: bool): (r: ImportResult)
    requires Valid(s)
    ensures Valid(r.store)
    ensures r.store.nextSetId == s.nextSetId + 1
    ensures s.nextSetId !in s.sets
    ensures r.store.sets == s.sets[s.nextSetId := WordSet(js.name, ImportEntries([], js.entries, s.nextWordId, unique).words)]
    ensures RowCount(r.store) == RowCount(s) + r.successed
    ensures r.successed <= |js.entries|
  {
    var id := s.nextSetId;
    var imported := ImportEntries([], js.entries, s.nextWordId, unique);
    ImportedIds([], js.entries, s.nextWordId, unique);
    var added := WordSet(js.name, imported.words);
    var next := Store(s.sets[id := added], id + 1, imported.nextId);
    AddedRows(s, added, imported.nextId);
    ReplaceKeepsValid(s, id, js.name, imported.words, next);
    ImportResult(next, imported.inserted)
  }

  /** The import loop over the top-level keys in file order. */
  function ImportAll(s: Store, json: seq<JsonSet>, unique: bool): (r: ImportResult)
    requires Valid(s)
    ensures Valid(r.store)
    ensures r.store.nextSetId == s.nextSetId + |json|
    ensures RowCount(r.store) == RowCount(s) + r.successed
    ensures r.successed <= EntryCount(json)
    decreases |json|
  {
    if json == [] then ImportResult(s, 0)
    else
      var done := ImportAll(s, json[..|json| - 1], unique);
      var last := AddSet(done.store, json[|json| - 1], unique);
      EntryCountLast(json);
      ImportResult(last.store, done.successed + last.successed)
  }

  /** The import only adds sets, one per key under consecutive new ids, and
      leaves every existing set as it was. */
  lemma {:induction false} ImportKeepsOldSets(s: Store, json: seq<JsonSet>, unique: bool)
    requires Valid(s)
    ensures var after := ImportAll(s, json, unique).store;
      && (forall k :: k in after.sets <==> k in s.sets || s.nextSetId <= k < s.nextSetId + |json|)
      && (forall k :: k in s.sets ==> after.sets[k] == s.sets[k])
    decreases |json|
  {
    if json != [] {
      ImportKeepsOldSets(s, json[..|json| - 1], unique);
    }
  }

  lemma {:induction false} EntryCountLast(json: seq<JsonSet>)
    requires json != []
    ensures EntryCount(json) == EntryCount(json[..|json| - 1]) + |json[|json| - 1].entries|
  {
    if |json| > 1 {
      EntryCountLast(json[1..]);
      assert json[1..][..|json| - 2] == json[..|json| - 1][1..];
    }
  }

  /** The set a key creates: named by the key, holding the stripped keys of
      its non-null entries, pairwise different under the UNIQUE constraint. */
  lemma AddedSet(s: Store, js: JsonSet, unique: bool)
    requires Valid(s)
    ensures var added := AddSet(s, js, unique).store.sets[s.nextSetId];
      && added.name == js.name
      && EnglishOf(added.words) == Keys(js.entries)
      && (unique ==> EnglishDistinct(added.words))
  {
    ImportedEnglish([], js.entries, s.nextWordId, unique);
    assert EnglishOf([]) == {};
    if unique {
      UniqueKeepsEnglishDistinct([], js.entries, s.nextWordId);
    }
  }

  /** Every key of the file becomes a set of its own: set `s.nextSetId + i`
      is named by key `i`, holds the stripped keys of its non-null entries,
      and under the UNIQUE constraint holds no English term twice. */
  lemma {:induction false} ImportedSets(s: Store, json: seq<JsonSet>, unique: bool, i: nat)
    requires Valid(s) && i < |json|
    ensures var after := ImportAll(s, json, unique).store;
      var k := s.nextSetId + i;
      && k in after.sets
      && after.sets[k].name == json[i].name
      && EnglishOf(after.sets[k].words) == Keys(json[i].entries)
      && (unique ==> EnglishDistinct(after.sets[k].words))
    decreases |json|
  {
    var front := json[..|json| - 1];
    var done := ImportAll(s, front, unique).store;
    if i == |json| - 1 {
      AddedSet(done, json[i], unique);
    } else {
      ImportedSets(s, front, unique, i);
      assert front[i] == json[i];
    }
  }
}
