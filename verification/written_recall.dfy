/**
 Written recall. The words of the chosen set are shuffled and asked one at a
 time: the learner types the other language's term, checks it once, and moves
 on. The English exercise shows the Turkish term and expects the English one;
 the Turkish exercise selects the columns as (id, english, turkish), so the
 same code shows the English term and expects the Turkish one. When the cursor
 passes the last word the result screen is shown for `correct` out of the
 number of words.
 */
module WrittenRecall {
  import opened Base
  import opened Text
  import opened Shuffling
  import opened Results

  /** The language the learner types. */
  datatype Language = English | Turkish

  /** The check button, the next button, and Return in the answer field
      (Return carries the field's text, which only a check reads). */
  datatype Event = Check(answer: string) | Next | Enter(answer: string)

  /** `checked` is true between a check and the move to the next word: the
      check button is disabled and the next button enabled. */
  datatype Session = Session(words: seq<Word>, language: Language, index: nat, correct: nat, checked: bool)

  /** The term shown for a word. */
  function Prompt(w: Word, language: Language): string {
    match language
    case English => w.turkish
    case Turkish => w.english
  }

  /** The term the answer is compared with. */
  function Expected(w: Word, language: Language): string {
    match language
    case English => w.english
    case Turkish => w.turkish
  }

  /** The Turkish exercise is the English one with the columns swapped: what
      one shows the other expects, and both use the two terms of one word. */
  lemma ExercisesMirror(w: Word)
    ensures Prompt(w, Turkish) == Expected(w, English) && Expected(w, Turkish) == Prompt(w, English)
    ensures {Prompt(w, English), Expected(w, English)} == {w.turkish, w.english}
    ensures Prompt(w, Turkish) == w.english && Expected(w, Turkish) == w.turkish
  {
  }

  predicate Ended(s: Session) {
    s.index >= |s.words|
  }

  /** Start on the fetched words shuffled by `draws`. An empty set is not
      rejected here: it ends at once and reaches the result screen with a total
      of zero. */
  function Start(fetched: seq<Word>, language: Language, draws: seq<nat>): (s: Session)
    requires ValidDraws(draws, |fetched|)
    ensures multiset(s.words) == multiset(fetched)
    ensures s.language == language && s.index == 0 && s.correct == 0 && !s.checked
    ensures Ended(s) <==> fetched == []
  {
    Session(Shuffle(fetched, draws), language, 0, 0, false)
  }

  /** Check an answer: count it if the trimmed, lower-cased answer equals the
      lower-cased expected term, then lock the check. */
  function CheckAnswer(s: Session, answer: string): (t: Session)
    requires !Ended(s)
    ensures t.words == s.words && t.language == s.language && t.index == s.index && t.checked
    ensures t.correct == s.correct + 1 <==> Judge(answer, Expected(s.words[s.index], s.language))
    ensures t.correct == s.correct <==> !Judge(answer, Expected(s.words[s.index], s.language))
  {
    var ok := Judge(answer, Expected(s.words[s.index], s.language));
    s.(correct := if ok then s.correct + 1 else s.correct, checked := true)
  }

  /** React to one event. The check button is disabled after a check and the
      next button until one; Return checks while checking is enabled and moves
      on otherwise. After the last word the exercise screen is gone. */
  function Step(s: Session, e: Event): (t: Session)
    ensures t.words == s.words && t.language == s.language
    ensures Ended(s) ==> t == s
    ensures t.index == s.index || t.index == s.index + 1
    ensures t.index == s.index + 1 <==> !Ended(s) && s.checked && !e.Check?
    ensures t.index == s.index + 1 ==> t.correct == s.correct && !t.checked
    ensures t.correct == s.correct + 1 <==>
      !Ended(s) && !s.checked && !e.Next? && Judge(e.answer, Expected(s.words[s.index], s.language))
    ensures t.correct == s.correct || t.correct == s.correct + 1
    ensures t.index == s.index && !Ended(s) ==> t.checked == (s.checked || !e.Next?)
  {
    if Ended(s) then s
    else match e
      case Check(a) => if s.checked then s else CheckAnswer(s, a)
      case Next => if s.checked then s.(index := s.index + 1, checked := false) else s
      case Enter(a) => if s.checked then s.(index := s.index + 1, checked := false) else CheckAnswer(s, a)
  }

  /** Return in the answer field is the check button before the check and the
      next button after it. */
  lemma ReturnKey(s: Session, answer: string)
    ensures !s.checked ==> Step(s, Enter(answer)) == Step(s, Check(answer))
    ensures s.checked ==> Step(s, Enter(answer)) == Step(s, Next)
  {
  }

  /** The states the exercise can reach: the score never runs ahead of the
      words answered so far, and a word is only ever checked before the end. */
  predicate Inv(s: Session) {
    && s.index <= |s.words|
    && (s.checked ==> s.index < |s.words|)
    && s.correct <= s.index + (if s.checked then 1 else 0)
  }

  lemma StepKeepsInv(s: Session, e: Event)
    requires Inv(s)
    ensures Inv(Step(s, e))
  {
  }

  function Run(s: Session, events: seq<Event>): Session
    decreases |events|
  {
    if events == [] then s else Run(Step(s, events[0]), events[1..])
  }

  /** Whatever the learner clicks and types, the score stays within the words
      answered, so an ended exercise reports at most one point per word. */
  lemma {:induction false} RunKeepsInv(s: Session, events: seq<Event>)
    requires Inv(s)
    ensures Inv(Run(s, events))
    ensures Run(s, events).words == s.words
    ensures Ended(Run(s, events)) ==> Run(s, events).correct <= |s.words|
    decreases |events|
  {
    if events != [] {
      StepKeepsInv(s, events[0]);
      RunKeepsInv(Step(s, events[0]), events[1..]);
    }
  }

  /** The result screen of an ended exercise. */
  function Finish(s: Session): (r: Result<Tier>)
    requires Ended(s) && Inv(s)
    ensures r.Err? <==> s.words == []
    ensures r == Ok(Excellent) <==> s.words != [] && s.correct * 100 >= 80 * |s.words|
  {
    TierOf(s.correct, |s.words|)
  }

  /** Exercising an empty set goes straight to the division by zero. */
  lemma EmptySetDividesByZero(language: Language)
    ensures Finish(Start([], language, [])) == Err(DivisionByZero)
  {
  }

  /** Independent reference: the number of answers the judge accepts, word by
      word. */
  function Score(words: seq<Word>, language: Language, answers: seq<string>): (n: nat)
    requires |answers| == |words|
    ensures n <= |words|
    decreases |words|
  {
    if words == [] then 0
    else
      var point := if Judge(answers[0], Expected(words[0], language)) then 1 else 0;
      point + Score(words[1..], language, answers[1..])
  }

  /** Check each answer, then move on. */
  function Script(answers: seq<string>): (events: seq<Event>)
    ensures |events| == 2 * |answers|
  {
    if answers == [] then [] else [Check(answers[0]), Next] + Script(answers[1..])
  }

  /** Answering the remaining words in order ends the exercise with exactly
      the reference score added. */
  lemma {:induction false} ScriptScores(s: Session, answers: seq<string>)
    requires s.index <= |s.words| && !s.checked
    requires |answers| == |s.words| - s.index
    ensures var t := Run(s, Script(answers));
      && Ended(t)
      && t.correct == s.correct + Score(s.words[s.index..], s.language, answers)
    decreases |answers|
  {
    if answers != [] {
      var events := Script(answers);
      assert events[0] == Check(answers[0]) && events[1] == Next;
      assert events[1..][1..] == Script(answers[1..]);
      var mid := Step(Step(s, Check(answers[0])), Next);
      assert Run(s, events) == Run(mid, Script(answers[1..]));
      assert s.words[s.index..][1..] == s.words[mid.index..];
      ScriptScores(mid, answers[1..]);
    }
  }

  /** Typing each stored term scores every word, whenever the stored terms
      carry no surrounding whitespace (as the editor stores them). */
  lemma {:induction false} TypingTheTermsScoresAll(words: seq<Word>, language: Language)
    requires forall k :: 0 <= k < |words| ==> Trim(Expected(words[k], language)) == Expected(words[k], language)
    ensures Score(words, language, seq(|words|, k requires 0 <= k < |words| => Expected(words[k], language))) == |words|
    decreases |words|
  {
    if words != [] {
      var answers := seq(|words|, k requires 0 <= k < |words| => Expected(words[k], language));
      JudgeAcceptsStoredTerm(Expected(words[0], language));
      assert answers[1..] == seq(|words[1..]|, k requires 0 <= k < |words[1..]| => Expected(words[1..][k], language));
      TypingTheTermsScoresAll(words[1..], language);
    }
  }

  /** The expected term is not trimmed: a stored term that starts with
      whitespace (the import keeps Turkish terms as given) is never accepted,
      so no sequence of answers reaches full marks. */
  lemma {:induction false} PaddedTermCapsScore(words: seq<Word>, language: Language, answers: seq<string>, k: nat)
    requires |answers| == |words| && k < |words|
    requires Expected(words[k], language) != [] && IsSpace(Expected(words[k], language)[0])
    ensures Score(words, language, answers) < |words|
    decreases |words|
  {
    if k == 0 {
      JudgeRejectsPaddedTerm(answers[0], Expected(words[0], language));
    } else {
      PaddedTermCapsScore(words[1..], language, answers[1..], k - 1);
    }
  }
}
