/**
 The multiple-choice test. A set needs at least four words. The words are
 shuffled; each question shows a Turkish term and offers its English term
 together with the English terms of three other words (sampled from the words
 with a different id), in shuffled order. Submitting without a selection only
 warns; otherwise the answer is recorded, scored by text equality with the
 English term, and the next question is shown.
 */
module MultipleChoice {
  import opened Base
  import opened Shuffling
  import opened Results

  /** The random choices of one question: the sample positions into the other
      words, and the shuffle draws for the options. */
  datatype QuestionDraws = QuestionDraws(picks: seq<nat>, order: seq<nat>)

  /** One recorded answer: the question's terms and the selected text. */
  datatype Answer = Answer(turkish: string, english: string, selected: string)

  /** `plan[k]` holds the random choices made when question `k` is shown. */
  datatype Session = Session(words: seq<Word>, plan: seq<QuestionDraws>, index: nat, correct: nat, answers: seq<Answer>)

  function Min(a: nat, b: nat): nat {
    if a <= b then a else b
  }

  /** The words whose id differs from `id`, in order. */
  function Others(words: seq<Word>, id: nat): (r: seq<Word>)
    ensures |r| <= |words|
    ensures forall j :: 0 <= j < |r| ==> r[j] in words && r[j].id != id
  {
    if words == [] then []
    else (if words[0].id != id then [words[0]] else []) + Others(words[1..], id)
  }

  /** Without the id every word is another word. */
  lemma {:induction false} OthersAll(words: seq<Word>, id: nat)
    requires forall i :: 0 <= i < |words| ==> words[i].id != id
    ensures Others(words, id) == words
  {
    if words != [] {
      OthersAll(words[1..], id);
    }
  }

  /** Exactly one word carries the id of word `k`, so every other word is a
      candidate distractor. */
  lemma {:induction false} OthersCount(words: seq<Word>, k: nat)
    requires DistinctIds(words) && k < |words|
    ensures |Others(words, words[k].id)| == |words| - 1
  {
    var id := words[k].id;
    var rest := words[1..];
    if k == 0 {
      OthersAll(rest, id);
    } else {
      assert DistinctIds(rest) by {
        forall i, j | 0 <= i < j < |rest| ensures rest[i].id != rest[j].id {
          assert rest[i] == words[i + 1] && rest[j] == words[j + 1];
        }
      }
      assert rest[k - 1] == words[k];
      OthersCount(rest, k - 1);
    }
  }

  /** The draws fit a question on `n` words: `min(3, n - 1)` distinct sample
      positions among the other words, and shuffle draws for the options. */
  predicate ValidQuestion(d: QuestionDraws, n: nat) {
    && n >= 1
    && |d.picks| == Min(3, n - 1)
    && ValidPicks(d.picks, n - 1)
    && ValidDraws(d.order, 1 + |d.picks|)
  }

  /** The English terms of the sampled other words. */
  function Distractors(words: seq<Word>, k: nat, picks: seq<nat>): (r: seq<string>)
    requires k < |words| && DistinctIds(words) && ValidPicks(picks, |words| - 1)
    ensures |r| == |picks|
    ensures forall j :: 0 <= j < |r| ==>
      exists w :: w in words && w.id != words[k].id && w.english == r[j]
  {
    OthersCount(words, k);
    var sample := Sample(Others(words, words[k].id), picks);
    seq(|sample|, j requires 0 <= j < |sample| => sample[j].english)
  }

  /** Leaving words out keeps the ids repetition-free. */
  lemma {:induction false} OthersDistinct(words: seq<Word>, id: nat)
    requires DistinctIds(words)
    ensures DistinctIds(Others(words, id))
  {
    if words != [] {
      var rest := words[1..];
      assert DistinctIds(rest) by {
        forall i, j | 0 <= i < j < |rest| ensures rest[i].id != rest[j].id {
          assert rest[i] == words[i + 1] && rest[j] == words[j + 1];
        }
      }
      OthersDistinct(rest, id);
      var tail := Others(rest, id);
      forall j | 0 <= j < |tail| ensures tail[j].id != words[0].id {
        var m :| 0 <= m < |rest| && rest[m] == tail[j];
        assert rest[m] == words[m + 1];
      }
    }
  }

  /** The distractors are the English terms of `|picks|` different words,
      none of them the word asked about: with four or more words, three other
      words, never the same word twice. */
  lemma DistractorWords(words: seq<Word>, k: nat, picks: seq<nat>)
    requires k < |words| && DistinctIds(words) && ValidPicks(picks, |words| - 1)
    ensures exists ws: seq<Word> ::
      && |ws| == |picks|
      && DistinctIds(ws)
      && (forall j :: 0 <= j < |ws| ==> ws[j] in words && ws[j].id != words[k].id)
      && (forall j :: 0 <= j < |ws| ==> Distractors(words, k, picks)[j] == ws[j].english)
  {
    OthersCount(words, k);
    OthersDistinct(words, words[k].id);
    var ws := Sample(Others(words, words[k].id), picks);
    SampleKeepsIds(Others(words, words[k].id), picks);
    assert forall j :: 0 <= j < |ws| ==> Distractors(words, k, picks)[j] == ws[j].english;
  }

  /** The options of question `k`: the correct English term and the
      distractors, shuffled. */
  function Options(words: seq<Word>, k: nat, d: QuestionDraws): (r: seq<string>)
    requires k < |words| && DistinctIds(words) && ValidQuestion(d, |words|)
    ensures |words| >= 4 ==> |r| == 4
    ensures words[k].english in r
    ensures multiset(r) == multiset([words[k].english] + Distractors(words, k, d.picks))
  {
    var unshuffled := [words[k].english] + Distractors(words, k, d.picks);
    var r := Shuffle(unshuffled, d.order);
    assert words[k].english in multiset(r) by {
      assert unshuffled[0] == words[k].english;
    }
    r
  }

  /** What a session keeps true: the plan covers every question and the
      words keep the distinct ids of the fetch and the minimum of four. */
  predicate WellFormed(s: Session) {
    && DistinctIds(s.words)
    && |s.words| >= 4
    && |s.plan| == |s.words|
    && (forall k :: 0 <= k < |s.plan| ==> ValidQuestion(s.plan[k], |s.words|))
    && s.index <= |s.words|
  }

  predicate Ended(s: Session) {
    s.index >= |s.words|
  }

  /** Start on the fetched words: fewer than four is rejected before anything
      is shuffled; otherwise the words are shuffled by `draws`. */
  function Start(fetched: seq<Word>, draws: seq<nat>, plan: seq<QuestionDraws>): (r: Result<Session>)
    requires DistinctIds(fetched) && ValidDraws(draws, |fetched|)
    requires |plan| == |fetched| && forall k :: 0 <= k < |plan| ==> ValidQuestion(plan[k], |fetched|)
    ensures r.Err? <==> |fetched| < 4
    ensures r.Err? ==> r.error == TooFewWords(4)
    ensures r.Ok? ==> WellFormed(r.value) && multiset(r.value.words) == multiset(fetched)
    ensures r.Ok? ==> r.value.index == 0 && r.value.correct == 0 && r.value.answers == []
  {
    if |fetched| < 4 then Err(TooFewWords(4))
    else
      ShuffleKeepsIds(fetched, draws);
      Ok(Session(Shuffle(fetched, draws), plan, 0, 0, []))
  }

  /** The options on screen for the current question. */
  function Current(s: Session): (r: seq<string>)
    requires WellFormed(s) && !Ended(s)
    ensures |r| == 4 && s.words[s.index].english in r
  {
    Options(s.words, s.index, s.plan[s.index])
  }

  /** The text the radio buttons hold: empty until an option is chosen. */
  function Selected(s: Session, choice: Option<nat>): string
    requires WellFormed(s) && !Ended(s)
    requires choice.Some? ==> choice.value < 4
  {
    match choice
    case None => ""
    case Some(p) => Current(s)[p]
  }

  /** Submit the current question (the next button or Return). An empty
      selection only warns. Otherwise the answer is recorded, the score rises
      exactly when the selected text equals the English term, and the cursor
      moves on. */
  function Submit(s: Session, choice: Option<nat>): (t: Session)
    requires WellFormed(s)
    requires choice.Some? ==> choice.value < 4
    ensures WellFormed(t) && t.words == s.words && t.plan == s.plan
    ensures Ended(s) ==> t == s
    ensures !Ended(s) && Selected(s, choice) == "" ==> t == s
    ensures !Ended(s) && Selected(s, choice) != "" ==>
      var w := s.words[s.index];
      && t.index == s.index + 1
      && t.answers == s.answers + [Answer(w.turkish, w.english, Selected(s, choice))]
      && (t.correct == s.correct + 1 <==> Selected(s, choice) == w.english)
      && (t.correct == s.correct <==> Selected(s, choice) != w.english)
  {
    if Ended(s) then s
    else
      var selected := Selected(s, choice);
      if selected == [] then s
      else
        var w := s.words[s.index];
        var point := if selected == w.english then 1 else 0;
        s.(index := s.index + 1, correct := s.correct + point,
           answers := s.answers + [Answer(w.turkish, w.english, selected)])
  }

  /** Picking the option that shows the English term scores, whenever that
      term is not empty. */
  lemma RightOptionScores(s: Session)
    requires WellFormed(s) && !Ended(s) && s.words[s.index].english != []
    ensures exists p :: 0 <= p < 4 && Submit(s, Some(p)).correct == s.correct + 1
  {
    var options := Current(s);
    var english := s.words[s.index].english;
    var p :| 0 <= p < |options| && options[p] == english;
    SelectedScores(s, p);
  }

  /** Selecting the option that shows the English term scores. */
  lemma SelectedScores(s: Session, p: nat)
    requires WellFormed(s) && !Ended(s) && p < 4 && s.words[s.index].english != []
    ensures Current(s)[p] == s.words[s.index].english ==> Submit(s, Some(p)).correct == s.correct + 1
  {
    if Current(s)[p] == s.words[s.index].english {
      assert Selected(s, Some(p)) == s.words[s.index].english;
    }
  }

  /** Independent reference: the recorded answers whose selection equals the
      English term. */
  function CountRight(answers: seq<Answer>): (n: nat)
    ensures n <= |answers|
  {
    if answers == [] then 0
    else
      var last := answers[|answers| - 1];
      CountRight(answers[..|answers| - 1]) + (if last.selected == last.english then 1 else 0)
  }

  /** Record `i` belongs to question `i`. */
  predicate Follows(answers: seq<Answer>, words: seq<Word>) {
    && |answers| <= |words|
    && forall i :: 0 <= i < |answers| ==>
         answers[i].turkish == words[i].turkish && answers[i].english == words[i].english
  }

  lemma RecordFollows(answers: seq<Answer>, words: seq<Word>, selected: string)
    requires Follows(answers, words) && |answers| < |words|
    ensures var w := words[|answers|];
      Follows(answers + [Answer(w.turkish, w.english, selected)], words)
  {
  }

  lemma RecordCounts(answers: seq<Answer>, a: Answer)
    ensures CountRight(answers + [a]) == CountRight(answers) + (if a.selected == a.english then 1 else 0)
  {
    assert (answers + [a])[..|answers|] == answers;
  }

  /** The states the test can reach: one record per answered question, in
      question order, and the score is the number of right records. */
  predicate Inv(s: Session) {
    && WellFormed(s)
    && |s.answers| == s.index
    && s.correct == CountRight(s.answers)
    && Follows(s.answers, s.words)
  }

  lemma SubmitKeepsInv(s: Session, choice: Option<nat>)
    requires Inv(s)
    requires choice.Some? ==> choice.value < 4
    ensures Inv(Submit(s, choice))
  {
    if !Ended(s) && Selected(s, choice) != "" {
      var w := s.words[s.index];
      var a := Answer(w.turkish, w.english, Selected(s, choice));
      RecordFollows(s.answers, s.words, a.selected);
      RecordCounts(s.answers, a);
    }
  }

  function Run(s: Session, choices: seq<Option<nat>>): Session
    requires WellFormed(s)
    requires forall i :: 0 <= i < |choices| && choices[i].Some? ==> choices[i].value < 4
    decreases |choices|
  {
    if choices == [] then s else Run(Submit(s, choices[0]), choices[1..])
  }

  /** Whatever the learner selects, an ended test has recorded one answer per
      word, its score counts the right ones, and the result screen never
      divides by zero. */
  lemma {:induction false} RunKeepsInv(s: Session, choices: seq<Option<nat>>)
    requires Inv(s)
    requires forall i :: 0 <= i < |choices| && choices[i].Some? ==> choices[i].value < 4
    ensures var t := Run(s, choices);
      && Inv(t)
      && t.words == s.words
      && (Ended(t) ==> |t.answers| == |t.words| && t.correct <= |t.words| && TierOf(t.correct, |t.words|).Ok?)
    decreases |choices|
  {
    if choices != [] {
      SubmitKeepsInv(s, choices[0]);
      RunKeepsInv(Submit(s, choices[0]), choices[1..]);
    }
  }
}
