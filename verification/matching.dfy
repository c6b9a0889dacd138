/**
 The matching test. A set needs at least three words. The words are shuffled
 and cut into consecutive groups of ten. Each group shows its Turkish terms on
 the left and its English terms on the right: the learner selects a Turkish
 term, then clicks an English term; the pair is right exactly when both come
 from the same word. Right pairs are locked and scored, a wrong pair only
 clears the selection. When every word of a group is matched the next group is
 shown, and after the last group the result screen reports the score out of
 all the words.
 */
module Matching {
  import opened Base
  import opened Shuffling
  import opened Results

  const GroupSize: nat := 10

  /** `xs[i:i+10] for i in range(0, len(xs), 10)`: group `g` is the slice
      starting at `10 * g`, cut short at the end of `xs`. */
  function Chunks<T>(xs: seq<T>): (r: seq<seq<T>>)
    ensures |r| == (|xs| + GroupSize - 1) / GroupSize
  {
    var n := (|xs| + GroupSize - 1) / GroupSize;
    seq(n, g requires 0 <= g < n =>
      var lo := g * GroupSize;
      xs[lo .. if lo + GroupSize <= |xs| then lo + GroupSize else |xs|])
  }

  /** A list of at most ten words is one group, and a longer one is its first
      ten words followed by the groups of the rest. */
  lemma ChunksShape<T>(xs: seq<T>)
    ensures xs == [] ==> Chunks(xs) == []
    ensures 0 < |xs| <= GroupSize ==> Chunks(xs) == [xs]
    ensures |xs| > GroupSize ==> Chunks(xs) == [xs[..GroupSize]] + Chunks(xs[GroupSize..])
  {
    if |xs| > GroupSize {
      var r := Chunks(xs);
      var rest := Chunks(xs[GroupSize..]);
      assert |r| == 1 + |rest|;
      forall g | 1 <= g < |r| ensures r[g] == rest[g - 1] {
        var lo := g * GroupSize;
        var hi := if lo + GroupSize <= |xs| then lo + GroupSize else |xs|;
        assert r[g] == xs[lo .. hi];
        assert (g - 1) * GroupSize == lo - GroupSize;
        assert rest[g - 1] == xs[GroupSize..][lo - GroupSize .. hi - GroupSize];
        assert xs[GroupSize..][lo - GroupSize .. hi - GroupSize] == xs[lo .. hi];
      }
    } else if xs != [] {
      assert Chunks(xs)[0] == xs;
    }
  }

  /** The groups concatenate back to the shuffled list. */
  lemma {:induction false} ChunksFlatten<T>(xs: seq<T>)
    ensures Flatten(Chunks(xs)) == xs
    decreases |xs|
  {
    ChunksShape(xs);
    if |xs| > GroupSize {
      ChunksFlatten(xs[GroupSize..]);
      assert xs == xs[..GroupSize] + xs[GroupSize..];
    } else if xs != [] {
      assert Flatten([xs]) == xs + Flatten<T>([]);
    }
  }

  /** Every group holds ten words except the last, which holds one to ten,
      and there are `ceil(n / 10)` groups. */
  lemma ChunkSizes<T>(xs: seq<T>)
    ensures var r := Chunks(xs);
      && (r == [] <==> xs == [])
      && (xs != [] ==> GroupSize * (|r| - 1) < |xs| <= GroupSize * |r|)
      && (forall g :: 0 <= g < |r| - 1 ==> |r[g]| == GroupSize)
      && (r != [] ==> 1 <= |r[|r| - 1]| <= GroupSize)
  {
  }

  /** A group of words with distinct ids has distinct ids. */
  lemma ChunkDistinct(xs: seq<Word>, g: nat)
    requires DistinctIds(xs) && g < |Chunks(xs)|
    ensures DistinctIds(Chunks(xs)[g])
  {
    var c := Chunks(xs)[g];
    var lo := g * GroupSize;
    forall i, j | 0 <= i < j < |c| ensures c[i].id != c[j].id {
      assert c[i] == xs[lo + i] && c[j] == xs[lo + j];
    }
  }

  /** The two kinds of click, each naming the id of the clicked word's
      button. */
  datatype Click = TurkishClick(id: nat) | EnglishClick(id: nat)

  /** `group` is the index of the group on screen, `total` the running score,
      `selected` the selected Turkish term and `matched` the ids matched in the
      current group, in order. */
  datatype Session = Session(all: seq<Word>, groups: seq<seq<Word>>, group: nat, total: nat,
                             selected: Option<nat>, matched: seq<nat>)

  predicate WellFormed(s: Session) {
    && DistinctIds(s.all)
    && |s.all| >= 3
    && s.groups == Chunks(s.all)
    && s.group <= |s.groups|
  }

  predicate Ended(s: Session) {
    s.group >= |s.groups|
  }

  /** Start on the fetched words: fewer than three is rejected; otherwise the
      words are shuffled by `draws` and grouped. */
  function Start(fetched: seq<Word>, draws: seq<nat>): (r: Result<Session>)
    requires DistinctIds(fetched) && ValidDraws(draws, |fetched|)
    ensures r.Err? <==> |fetched| < 3
    ensures r.Err? ==> r.error == TooFewWords(3)
    ensures r.Ok? ==> WellFormed(r.value) && multiset(r.value.all) == multiset(fetched)
    ensures r.Ok? ==> !Ended(r.value) && r.value.total == 0
    ensures r.Ok? ==> r.value.group == 0 && r.value.selected.None? && r.value.matched == []
    ensures r.Ok? ==> Inv(r.value)
  {
    if |fetched| < 3 then Err(TooFewWords(3))
    else
      ShuffleKeepsIds(fetched, draws);
      var all := Shuffle(fetched, draws);
      Ok(Session(all, Chunks(all), 0, 0, None, []))
  }

  /** The click is on a button of the current group whose word is not matched
      yet; matched buttons are disabled, and other ids have no button. */
  predicate Live(s: Session, id: nat)
    requires WellFormed(s)
  {
    !Ended(s) && id in Ids(s.groups[s.group]) && id !in s.matched
  }

  /** React to one click. A Turkish click selects its word. An English click
      with no selection only shows a hint; with a selection it scores and locks
      the pair when both are the same word, and otherwise just clears the
      selection. Matching the last word of a group moves to the next group. */
  function Step(s: Session, c: Click): (t: Session)
    requires WellFormed(s)
    ensures WellFormed(t) && t.all == s.all && t.groups == s.groups
    ensures !Live(s, c.id) ==> t == s
    ensures c.TurkishClick? && Live(s, c.id) ==> t == s.(selected := Some(c.id))
    ensures c.EnglishClick? && s.selected.None? ==> t == s
    ensures t.total == s.total + 1 <==> c.EnglishClick? && Live(s, c.id) && s.selected == Some(c.id)
    ensures t.total == s.total || t.total == s.total + 1
    ensures c.EnglishClick? && Live(s, c.id) && s.selected.Some? && s.selected.value != c.id ==>
      t == s.(selected := None)
  {
    if !Live(s, c.id) then s
    else match c
      case TurkishClick(id) => s.(selected := Some(id))
      case EnglishClick(id) =>
        if s.selected.None? then s
        else if s.selected.value != id then s.(selected := None)
        else
          var matched := s.matched + [id];
          if |matched| == |s.groups[s.group]| then
            s.(group := s.group + 1, total := s.total + 1, selected := None, matched := [])
          else
            s.(total := s.total + 1, selected := None, matched := matched)
  }

  /** Distinct ids drawn from a group cannot outnumber the group. */
  lemma MatchedBound(matched: seq<nat>, group: seq<Word>)
    requires Distinct(matched) && DistinctIds(group)
    requires forall i :: 0 <= i < |matched| ==> matched[i] in Ids(group)
    ensures |matched| <= |group|
  {
    DistinctCard(matched);
    IdsCard(group);
    assert Elems(matched) <= Ids(group);
    SubsetCard(Elems(matched), Ids(group));
  }

  lemma {:induction false} SubsetCard(a: set<nat>, b: set<nat>)
    requires a <= b
    ensures |a| <= |b|
    decreases |a|
  {
    if a != {} {
      var x :| x in a;
      SubsetCard(a - {x}, b - {x});
    }
  }

  /** The states the test can reach: the matched ids of the current group are
      distinct, unselected and fewer than the group, and the score counts the
      words of the finished groups plus the matched ones. */
  predicate Inv(s: Session) {
    && WellFormed(s)
    && (Ended(s) ==> s.matched == [] && s.selected.None?)
    && (!Ended(s) ==>
          && Distinct(s.matched)
          && (forall i :: 0 <= i < |s.matched| ==> s.matched[i] in Ids(s.groups[s.group]))
          && |s.matched| < |s.groups[s.group]|)
    && s.total == |Flatten(s.groups[..s.group])| + |s.matched|
  }

  /** A right pair that completes a group moves the score past that group. */
  lemma CompleteGroup(s: Session)
    requires WellFormed(s) && !Ended(s)
    ensures |Flatten(s.groups[..s.group + 1])| == |Flatten(s.groups[..s.group])| + |s.groups[s.group]|
  {
    assert s.groups[..s.group + 1] == s.groups[..s.group] + [s.groups[s.group]];
    FlattenAppend(s.groups[..s.group], s.groups[s.group]);
  }

  lemma StepKeepsInv(s: Session, c: Click)
    requires Inv(s)
    ensures Inv(Step(s, c))
  {
    var t := Step(s, c);
    if Live(s, c.id) && c.EnglishClick? && s.selected == Some(c.id) {
      var group := s.groups[s.group];
      var matched := s.matched + [c.id];
      assert Distinct(matched);
      ChunkDistinct(s.all, s.group);
      MatchedBound(matched, group);
      CompleteGroup(s);
      if |matched| < |group| {
        assert t.matched == matched;
      } else {
        assert t.group == s.group + 1;
        if !Ended(t) {
          assert |t.groups[t.group]| >= 1 by {
            ChunkSizes(s.all);
          }
        }
      }
    }
  }

  function Run(s: Session, clicks: seq<Click>): Session
    requires WellFormed(s)
    decreases |clicks|
  {
    if clicks == [] then s else Run(Step(s, clicks[0]), clicks[1..])
  }

  /** Whatever the learner clicks, the score never exceeds the number of
      words, and a finished test has matched every word. */
  lemma {:induction false} RunKeepsInv(s: Session, clicks: seq<Click>)
    requires Inv(s)
    ensures var t := Run(s, clicks);
      && Inv(t) && t.all == s.all
      && t.total <= |s.all|
      && (Ended(t) ==> t.total == |s.all|)
    decreases |clicks|
  {
    if clicks != [] {
      StepKeepsInv(s, clicks[0]);
      RunKeepsInv(Step(s, clicks[0]), clicks[1..]);
    } else {
      TotalBound(s);
    }
  }

  /** The score of a reachable state is at most the word count, and all of it
      once the last group is done. */
  lemma TotalBound(s: Session)
    requires Inv(s)
    ensures s.total <= |s.all|
    ensures Ended(s) ==> s.total == |s.all|
  {
    ChunksFlatten(s.all);
    if Ended(s) {
      assert s.groups[..s.group] == s.groups;
    } else {
      var gs := s.groups;
      assert gs == gs[..s.group] + [gs[s.group]] + gs[s.group + 1..];
      FlattenAppend(gs[..s.group], gs[s.group]);
      FlattenConcat(gs[..s.group] + [gs[s.group]], gs[s.group + 1..]);
    }
  }

  /** From the start of a test, whatever is clicked, the score stays within
      the word count, and a test that reaches the result screen has matched
      every fetched word and shows the top tier. */
  lemma StartedTestScoresAll(fetched: seq<Word>, draws: seq<nat>, clicks: seq<Click>)
    requires DistinctIds(fetched) && ValidDraws(draws, |fetched|) && |fetched| >= 3
    ensures var t := Run(Start(fetched, draws).value, clicks);
      && t.total <= |fetched|
      && (Ended(t) ==> t.total == |fetched| && TierOf(t.total, |fetched|) == Ok(Excellent))
  {
    var s := Start(fetched, draws).value;
    RunKeepsInv(s, clicks);
    var t := Run(s, clicks);
    assert |s.all| == |fetched| by {
      assert |multiset(s.all)| == |multiset(fetched)|;
    }
    if Ended(t) {
      FinishedIsExcellent(t);
    }
  }

  /** The result screen of a finished test always shows the top tier. */
  lemma FinishedIsExcellent(s: Session)
    requires Inv(s) && Ended(s)
    ensures TierOf(s.total, |s.all|) == Ok(Excellent)
  {
    TotalBound(s);
  }
}
