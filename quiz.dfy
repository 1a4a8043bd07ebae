/**
 * The quiz session held in the web framework's per-browser session state:
 * the score, the current sample of twelve verdicts, the reveal flag and the
 * guess per slot, with the transitions of `main`.
 */
module Quiz {
  import opened Wrappers
  import opened Pipeline

  /** Slots per round. */
  const RoundSize: nat := 12

  /** The record the submit loop attempts to write for one slot; the timestamp is left out. */
  datatype GuessEvent = GuessEvent(userId: string, name: string, guess: string, correctAnswer: string, isCorrect: bool)

  datatype Score = Score(correct: nat, total: nat)

  /** `guesses_made.get(i)` under Python's truth test: a missing slot or an empty string is no guess. */
  function GuessAt(guesses: map<nat, string>, i: nat): (guess: Option<string>)
  {
    if i in guesses && guesses[i] != "" then Some(guesses[i]) else None
  }

  /** Slot i counts as correct: a guess is present and equals that row's `dogginess_prop`. */
  predicate SlotCorrect(guesses: map<nat, string>, names: seq<Verdict>, i: nat)
    requires i < |names|
  {
    GuessAt(guesses, i) == Some(names[i].dogginessProp)
  }

  /** Number of correct slots among the first n. */
  function CorrectCount(guesses: map<nat, string>, names: seq<Verdict>, n: nat): (count: nat)
    requires n <= |names|
  {
    if n == 0 then 0
    else CorrectCount(guesses, names, n - 1) + (if SlotCorrect(guesses, names, n - 1) then 1 else 0)
  }

  /** The writes attempted for the first n slots: one per present guess, and none without a client. */
  function Attempts(userId: string, guesses: map<nat, string>, names: seq<Verdict>, hasClient: bool, n: nat): (events: seq<GuessEvent>)
    requires n <= |names|
  {
    if n == 0 then []
    else
      Attempts(userId, guesses, names, hasClient, n - 1) +
      match GuessAt(guesses, n - 1)
      case None => []
      case Some(g) =>
        if hasClient
        then [GuessEvent(userId, names[n - 1].name, g, names[n - 1].dogginessProp, g == names[n - 1].dogginessProp)]
        else []
  }

  /** The submit handler's loop: counts the correct slots and attempts one write per present guess. */
  method ScoreRound(userId: string, guesses: map<nat, string>, names: seq<Verdict>, hasClient: bool)
    returns (correctCount: nat, writes: seq<GuessEvent>)
    requires |names| == RoundSize
    ensures correctCount == CorrectCount(guesses, names, RoundSize)
    ensures writes == Attempts(userId, guesses, names, hasClient, RoundSize)
  {
    correctCount, writes := 0, [];
    for i := 0 to RoundSize
      invariant correctCount == CorrectCount(guesses, names, i)
      invariant writes == Attempts(userId, guesses, names, hasClient, i)
    {
      var guess := GuessAt(guesses, i);
      if guess.Some? {
        var correctAnswer := names[i].dogginessProp;
        if hasClient {
          writes := writes + [GuessEvent(userId, names[i].name, guess.value, correctAnswer, guess.value == correctAnswer)];
        }
        if guess.value == correctAnswer {
          correctCount := correctCount + 1;
        }
      }
    }
  }

  lemma {:induction false} CorrectCountBound(guesses: map<nat, string>, names: seq<Verdict>, n: nat)
    requires n <= |names|
    ensures CorrectCount(guesses, names, n) <= n
  {
    if n > 0 {
      CorrectCountBound(guesses, names, n - 1);
    }
  }

  /** Guessing every slot's `dogginess_prop` scores every slot. */
  lemma {:induction false} PerfectRound(guesses: map<nat, string>, names: seq<Verdict>, n: nat)
    requires n <= |names|
    requires forall i :: 0 <= i < n ==> i in guesses && guesses[i] == names[i].dogginessProp && guesses[i] != ""
    ensures CorrectCount(guesses, names, n) == n
  {
    if n > 0 {
      PerfectRound(guesses, names, n - 1);
    }
  }

  /** A slot without a guess never scores: with no guesses at all the round scores zero. */
  lemma {:induction false} NoGuessesScoreZero(names: seq<Verdict>, n: nat)
    requires n <= |names|
    ensures CorrectCount(map[], names, n) == 0
  {
    if n > 0 {
      NoGuessesScoreZero(names, n - 1);
    }
  }

  /** Number of attempted writes whose `is_correct` is set. */
  function CorrectEvents(es: seq<GuessEvent>): (count: nat)
  {
    if es == [] then 0 else CorrectEvents(es[..|es| - 1]) + (if es[|es| - 1].isCorrect then 1 else 0)
  }

  /**
   * Without a client nothing is written; with one, every write carries the
   * session's id and `is_correct == (guess == correct_answer)`, and the writes
   * marked correct are exactly as many as the slots the score counts.
   */
  lemma {:induction false} AttemptsAgreeWithScore(userId: string, guesses: map<nat, string>, names: seq<Verdict>, n: nat)
    requires n <= |names|
    ensures Attempts(userId, guesses, names, false, n) == []
    ensures forall e :: e in Attempts(userId, guesses, names, true, n) ==>
      e.userId == userId && e.guess != "" && e.isCorrect == (e.guess == e.correctAnswer)
    ensures CorrectEvents(Attempts(userId, guesses, names, true, n)) == CorrectCount(guesses, names, n)
  {
    if n > 0 {
      AttemptsAgreeWithScore(userId, guesses, names, n - 1);
      var es := Attempts(userId, guesses, names, true, n);
      var prev := Attempts(userId, guesses, names, true, n - 1);
      if GuessAt(guesses, n - 1).Some? {
        assert es[..|es| - 1] == prev;
      } else {
        assert es == prev;
      }
    }
  }

  /** 12 distinct row positions of a table of n rows: a choice `data.sample(12)` can make. */
  predicate IsSample(picks: seq<nat>, n: nat)
  {
    |picks| == RoundSize
    && (forall i :: 0 <= i < |picks| ==> picks[i] < n)
    && (forall i, j :: 0 <= i < j < |picks| ==> picks[i] != picks[j])
  }

  /** The sampled rows, renumbered 0..11 by `reset_index()`. */
  function Sample(data: seq<Verdict>, picks: seq<nat>): (rows: seq<Verdict>)
    requires IsSample(picks, |data|)
    ensures |rows| == RoundSize
    ensures forall i :: 0 <= i < RoundSize ==> rows[i] == data[picks[i]]
  {
    seq(RoundSize, i requires 0 <= i < RoundSize => data[picks[i]])
  }

  class Session {
    /** Assigned once, when the session starts, and never changed. */
    const userId: string
    var currentNames: Option<seq<Verdict>>
    var score: Score
    var showAnswers: bool
    var guessesMade: map<nat, string>

    ghost predicate Valid()
      reads this
    {
      && score.correct <= score.total
      && score.total % RoundSize == 0
      && (currentNames.Some? ==> |currentNames.value| == RoundSize)
      && (showAnswers ==> currentNames.Some?)
      && (forall i :: i in guessesMade ==> i < RoundSize)
    }

    /** The session-state initialisation: a fresh id, no sample, zero score, answers hidden, no guesses. */
    constructor (id: string)
      ensures Valid()
      ensures userId == id && currentNames == None && score == Score(0, 0) && !showAnswers && guessesMade == map[]
    {
      userId := id;
      currentNames := None;
      score := Score(0, 0);
      showAnswers := false;
      guessesMade := map[];
    }

    /**
     * New round: when no sample is held, draw one (sampling 12 from fewer rows
     * fails and changes nothing), hide the answers and forget the guesses.
     */
    method StartRoundIfNeeded(data: seq<Verdict>, picks: seq<nat>) returns (ok: bool)
      requires Valid()
      requires |data| >= RoundSize ==> IsSample(picks, |data|)
      modifies this
      ensures Valid()
      ensures ok == (old(currentNames).Some? || |data| >= RoundSize)
      ensures score == old(score)
      ensures old(currentNames).None? && ok ==>
        currentNames == Some(Sample(data, picks)) && !showAnswers && guessesMade == map[]
      ensures old(currentNames).Some? || !ok ==>
        currentNames == old(currentNames) && showAnswers == old(showAnswers) && guessesMade == old(guessesMade)
    {
      ok := true;
      if currentNames.None? {
        if |data| < RoundSize {
          ok := false;
          return;
        }
        currentNames := Some(Sample(data, picks));
        showAnswers := false;
        guessesMade := map[];
      }
    }

    /** The render loop: each slot's radio selection is stored as its guess. */
    method RecordGuesses(choices: seq<string>)
      requires Valid() && |choices| == RoundSize
      modifies this
      ensures Valid()
      ensures guessesMade == map i: nat | i < RoundSize :: choices[i]
      ensures currentNames == old(currentNames) && score == old(score) && showAnswers == old(showAnswers)
    {
      for i := 0 to RoundSize
        invariant Valid()
        invariant currentNames == old(currentNames) && score == old(score) && showAnswers == old(showAnswers)
        invariant forall k :: k in guessesMade && k >= i ==> k in old(guessesMade) && guessesMade[k] == old(guessesMade)[k]
        invariant forall k :: 0 <= k < i ==> k in guessesMade && guessesMade[k] == choices[k]
        invariant forall k: nat :: k in old(guessesMade) ==> k in guessesMade
      {
        guessesMade := guessesMade[i := choices[i]];
      }
    }

    /**
     * Submit, offered only while the answers are hidden: adds the round's
     * correct slots and 12 to the score, reveals the answers and returns the
     * writes attempted.
     */
    method Submit(hasClient: bool) returns (writes: seq<GuessEvent>)
      requires Valid() && !showAnswers && currentNames.Some?
      modifies this
      ensures Valid()
      ensures score == Score(old(score.correct) + CorrectCount(old(guessesMade), old(currentNames.value), RoundSize),
                             old(score.total) + RoundSize)
      ensures showAnswers
      ensures currentNames == old(currentNames) && guessesMade == old(guessesMade)
      ensures writes == Attempts(userId, guessesMade, currentNames.value, hasClient, RoundSize)
    {
      var correctCount;
      correctCount, writes := ScoreRound(userId, guessesMade, currentNames.value, hasClient);
      CorrectCountBound(guessesMade, currentNames.value, RoundSize);
      score := Score(score.correct + correctCount, score.total + RoundSize);
      showAnswers := true;
    }

    /** Next set, offered in either state: drop the sample, hide the answers, forget the guesses; the score stays. */
    method NextSet()
      requires Valid()
      modifies this
      ensures Valid()
      ensures currentNames == None && !showAnswers && guessesMade == map[] && score == old(score)
    {
      currentNames := None;
      showAnswers := false;
      guessesMade := map[];
    }
  }

  /** "Next set" followed by the rerun it triggers: a fresh sample, answers hidden, no guesses, score kept. */
  method NextSetAndRerun(s: Session, data: seq<Verdict>, picks: seq<nat>) returns (ok: bool)
    requires s.Valid() && |data| >= RoundSize && IsSample(picks, |data|)
    modifies s
    ensures s.Valid() && ok
    ensures s.currentNames == Some(Sample(data, picks)) && !s.showAnswers && s.guessesMade == map[]
    ensures s.score == old(s.score)
  {
    s.NextSet();
    ok := s.StartRoundIfNeeded(data, picks);
  }
}
