/**
 The flashcard drill. The words of the chosen set are shuffled and shown one
 card at a time: the front shows one language, a flip reveals the other, and
 the learner then says "I know it" or "I don't know it", or skips at any time.
 Nothing is scored; the drill ends when the cursor passes the last card.
 */
module Flashcard {
  import opened Base
  import opened Shuffling

  /** The direction chosen on the flashcard menu. */
  datatype Mode = TrToEn | EnToTr | Mixed

  /** The direction of one card: which language is on the front. */
  datatype Direction = TurkishFront | EnglishFront

  /** The inputs the card screen reacts to. A click on the card and the space
      bar both flip; Return flips or moves on. */
  datatype Event = Flip | Know | DontKnow | Skip | Return

  /** `index` is the cursor, `flipped` says whether the back is showing and
      `direction` is the current card's direction. */
  datatype Session = Session(words: seq<Word>, mode: Mode, index: nat, flipped: bool, direction: Direction)

  /** The direction of a newly shown card: fixed by the mode, or the coin
      `random.choice` tossed for this card in mixed mode. */
  function DirectionFor(mode: Mode, coin: Direction): (d: Direction)
    ensures mode == TrToEn ==> d == TurkishFront
    ensures mode == EnToTr ==> d == EnglishFront
    ensures mode == Mixed ==> d == coin
  {
    match mode
    case TrToEn => TurkishFront
    case EnToTr => EnglishFront
    case Mixed => coin
  }

  predicate Ended(s: Session) {
    s.index >= |s.words|
  }

  /** Start the drill on the fetched words, shuffled by `draws`; `coin` is the
      direction toss for the first card. An empty set ends at once. */
  function Start(fetched: seq<Word>, mode: Mode, draws: seq<nat>, coin: Direction): (s: Session)
    requires ValidDraws(draws, |fetched|)
    ensures multiset(s.words) == multiset(fetched)
    ensures s.index == 0 && !s.flipped
    ensures Ended(s) <==> fetched == []
    ensures s.direction == DirectionFor(mode, coin) && DirectionKept(s)
  {
    Session(Shuffle(fetched, draws), mode, 0, false, DirectionFor(mode, coin))
  }

  /** The text on the front of the current card. */
  function Front(s: Session): string
    requires !Ended(s)
  {
    var w := s.words[s.index];
    if s.direction == TurkishFront then w.turkish else w.english
  }

  /** The text on the back of the current card. */
  function Back(s: Session): string
    requires !Ended(s)
  {
    var w := s.words[s.index];
    if s.direction == TurkishFront then w.english else w.turkish
  }

  /** The text the card currently shows. */
  function Showing(s: Session): string
    requires !Ended(s)
  {
    if s.flipped then Back(s) else Front(s)
  }

  /** The card direction a fixed mode keeps for every card (`RunBounds` shows
      that no event breaks it). */
  predicate DirectionKept(s: Session) {
    s.mode != Mixed ==> s.direction == DirectionFor(s.mode, s.direction)
  }

  /** Front and back are the current word's two terms: Turkish in front in
      Turkish-to-English mode, English in front in English-to-Turkish mode. */
  lemma Faces(s: Session)
    requires !Ended(s) && DirectionKept(s)
    ensures {Front(s), Back(s)} == {s.words[s.index].turkish, s.words[s.index].english}
    ensures s.mode == TrToEn ==> Front(s) == s.words[s.index].turkish && Back(s) == s.words[s.index].english
    ensures s.mode == EnToTr ==> Front(s) == s.words[s.index].english && Back(s) == s.words[s.index].turkish
  {
  }

  /** Move to the next card, unflipped, tossing `coin` for its direction. */
  function Advance(s: Session, coin: Direction): (t: Session)
    ensures t.words == s.words && t.mode == s.mode
    ensures t.index == s.index + 1 && !t.flipped
    ensures DirectionKept(t)
    ensures s.mode == Mixed ==> t.direction == coin
  {
    s.(index := s.index + 1, flipped := false, direction := DirectionFor(s.mode, coin))
  }

  /** React to one event. The know/don't-know buttons are disabled until the
      card is flipped, skip is always enabled, a flipped card does not flip
      back, and once the drill has ended the screen is gone. */
  function Step(s: Session, e: Event, coin: Direction): (t: Session)
    ensures t.words == s.words && t.mode == s.mode
    ensures Ended(s) ==> t == s
    ensures !Ended(s) ==> t.index == s.index || t.index == s.index + 1
    ensures t.index == s.index + 1 ==> !t.flipped && t.direction == DirectionFor(s.mode, coin)
    ensures t.index == s.index ==> t.direction == s.direction && (s.flipped ==> t == s)
  {
    if Ended(s) then s
    else match e
      case Flip => s.(flipped := true)
      case Know => if s.flipped then Advance(s, coin) else s
      case DontKnow => if s.flipped then Advance(s, coin) else s
      case Skip => Advance(s, coin)
      case Return => if s.flipped then Advance(s, coin) else s.(flipped := true)
  }

  /** The buttons behave as the screen enables them: know and don't-know only
      after the flip, skip always; Return flips first and advances second. */
  lemma StepButtons(s: Session, coin: Direction)
    requires !Ended(s)
    ensures !s.flipped ==> Step(s, Know, coin) == s && Step(s, DontKnow, coin) == s
    ensures s.flipped ==> Step(s, Know, coin).index == s.index + 1
    ensures s.flipped ==> Step(s, DontKnow, coin).index == s.index + 1
    ensures Step(s, Skip, coin).index == s.index + 1
    ensures !s.flipped ==> Step(s, Return, coin) == Step(s, Flip, coin)
    ensures s.flipped ==> Step(s, Return, coin) == Step(s, Skip, coin)
    ensures Step(s, Flip, coin).flipped && Step(s, Flip, coin).index == s.index
  {
  }

  /** Run a sequence of events, one coin per event. */
  function Run(s: Session, events: seq<Event>, coins: seq<Direction>): Session
    requires |coins| == |events|
    decreases |events|
  {
    if events == [] then s else Run(Step(s, events[0], coins[0]), events[1..], coins[1..])
  }

  /** Whatever the learner does, the cursor moves by at most one card per
      event, never passes the end, keeps the words, and keeps every card of a
      fixed-direction mode in that direction. */
  lemma {:induction false} RunBounds(s: Session, events: seq<Event>, coins: seq<Direction>)
    requires |coins| == |events|
    requires s.index <= |s.words|
    requires DirectionKept(s)
    ensures var t := Run(s, events, coins);
      && t.words == s.words
      && s.index <= t.index <= |s.words|
      && t.index <= s.index + |events|
      && DirectionKept(t)
    decreases |events|
  {
    if events != [] {
      var next := Step(s, events[0], coins[0]);
      assert next.mode == s.mode;
      RunBounds(next, events[1..], coins[1..]);
    }
  }

  /** Skipping once per card goes through the whole set and ends the drill. */
  lemma {:induction false} SkipThrough(s: Session, coins: seq<Direction>)
    requires s.index <= |s.words|
    requires |coins| == |s.words| - s.index
    ensures Ended(Run(s, seq(|coins|, _ => Skip), coins))
    decreases |coins|
  {
    if coins != [] {
      var next := Step(s, Skip, coins[0]);
      assert seq(|coins|, _ => Skip)[1..] == seq(|coins| - 1, _ => Skip);
      SkipThrough(next, coins[1..]);
    }
  }
}
