/**
 Shared vocabulary of the model: the word record every drill works on, the raw
 pair a user types into an editor row, the errors the application reports, and
 a few sequence facts used by several modules.
 */
module Base {

  /** A row of the `words` table as the drills fetch it: (id, turkish, english).
      The id is the table's AUTOINCREMENT primary key. */
  datatype Word = Word(id: nat, turkish: string, english: string)

  /** A (turkish, english) pair: the raw text of one editor row, or a trimmed pair
      ready to be inserted. */
  datatype Pair = Pair(turkish: string, english: string)

  /** Why an operation stops: the application's warning messages, and the two
      exceptions that abort a save half-way. */
  datatype Error =
    | EmptyName          // "please enter a set name"
    | NoWords            // "please add at least one word"
    | DestroyedRow       // TclError: reading an entry of a row removed with the delete button
    | DuplicateEnglish   // IntegrityError: UNIQUE(set_id, english) refuses a second English term
    | TooFewWords(needed: nat)  // a drill needs at least `needed` words
    | DivisionByZero     // the result screen divides by a total of zero

  datatype Result<T> = Ok(value: T) | Err(error: Error)

  datatype Option<T> = None | Some(value: T)

  /** No two words share an id: what the primary key guarantees of any fetch. */
  predicate DistinctIds(ws: seq<Word>) {
    forall i, j :: 0 <= i < j < |ws| ==> ws[i].id != ws[j].id
  }

  predicate Distinct<T(==)>(xs: seq<T>) {
    forall i, j :: 0 <= i < j < |xs| ==> xs[i] != xs[j]
  }

  /** The elements of a sequence, as a set. */
  function Elems<T>(xs: seq<T>): set<T> {
    set x | x in xs
  }

  function Ids(ws: seq<Word>): set<nat> {
    set w | w in ws :: w.id
  }

  function IdList(ws: seq<Word>): (r: seq<nat>)
    ensures |r| == |ws|
    ensures forall i :: 0 <= i < |ws| ==> r[i] == ws[i].id
  {
    seq(|ws|, i requires 0 <= i < |ws| => ws[i].id)
  }

  /** Concatenation of a sequence of sequences, left to right. */
  function Flatten<T>(xss: seq<seq<T>>): seq<T> {
    if xss == [] then [] else xss[0] + Flatten(xss[1..])
  }

  lemma {:induction false} FlattenAppend<T>(xss: seq<seq<T>>, ys: seq<T>)
    ensures Flatten(xss + [ys]) == Flatten(xss) + ys
  {
    if xss == [] {
      assert xss + [ys] == [ys];
    } else {
      assert (xss + [ys])[1..] == xss[1..] + [ys];
      FlattenAppend(xss[1..], ys);
    }
  }

  lemma {:induction false} FlattenConcat<T>(a: seq<seq<T>>, b: seq<seq<T>>)
    ensures Flatten(a + b) == Flatten(a) + Flatten(b)
  {
    if a == [] {
      assert a + b == b;
    } else {
      assert (a + b)[0] == a[0] && (a + b)[1..] == a[1..] + b;
      FlattenConcat(a[1..], b);
    }
  }

  /** A repetition-free sequence has as many elements as its set of elements. */
  lemma {:induction false} DistinctCard<T>(xs: seq<T>)
    requires Distinct(xs)
    ensures |Elems(xs)| == |xs|
  {
    if xs != [] {
      var rest := xs[1..];
      assert Distinct(rest) by {
        forall i, j | 0 <= i < j < |rest| ensures rest[i] != rest[j] {
          assert rest[i] == xs[i + 1] && rest[j] == xs[j + 1];
        }
      }
      DistinctCard(rest);
      assert xs[0] !in rest by {
        forall k | 0 <= k < |rest| ensures rest[k] != xs[0] {
          assert rest[k] == xs[k + 1];
        }
      }
      assert Elems(xs) == Elems(rest) + {xs[0]} by {
        assert xs == [xs[0]] + rest;
      }
    }
  }

  /** Distinct ids make the id set exactly as large as the sequence. */
  lemma IdsCard(ws: seq<Word>)
    requires DistinctIds(ws)
    ensures |Ids(ws)| == |ws|
  {
    var ids := IdList(ws);
    assert Distinct(ids);
    DistinctCard(ids);
    assert Elems(ids) == Ids(ws) by {
      forall x | x in ids ensures x in Ids(ws) {
        var i :| 0 <= i < |ids| && ids[i] == x;
        assert ws[i] in ws;
      }
      forall x | x in Ids(ws) ensures x in ids {
        var w :| w in ws && w.id == x;
        var i :| 0 <= i < |ws| && ws[i] == w;
        assert ids[i] == x;
      }
    }
  }
}
