/** The stats-challenge screen's exhaustible question picker: a fixed pool
    of eight distinct questions, drawn one at a time without replacement
    until a draw finds the list empty, then restored on the next click.

    The state functions take the pool as a parameter `pool` (the
    component's `questions` constant); `Questions` below is its value. */
module StatChallenge {
  import opened Filter

  datatype Option<T> = None | Some(value: T)

  /** The fixed question pool, in declaration order. */
  const Questions: seq<string> := [
    "Fastest 2.4km timing?",
    "Heaviest squat/bench/deadlift?",
    "Most number of SUs used?",
    "Most cooked for uni?",
    "Stays nearest to campus?",
    "Highest GPA/CAP?",
    "Most number of internships done?",
    "Most number of mods taken this sem?"
  ]

  /** The image shown under each question (only its key set matters here). */
  const QuestionImages: map<string, string> := map[
    "Fastest 2.4km timing?" := "/src/assets/run.jpeg",
    "Heaviest squat/bench/deadlift?" := "/src/assets/sbd.jpg",
    "Most number of SUs used?" := "/src/assets/su.jpeg",
    "Most cooked for uni?" := "/src/assets/cooked.jpeg",
    "Stays nearest to campus?" := "/src/assets/nus.jpg",
    "Highest GPA/CAP?" := "/src/assets/grades.png",
    "Most number of internships done?" := "/src/assets/internships.png",
    "Most number of mods taken this sem?" := "/src/assets/nusmods.png"
  ]

  /** What a draw returns when the list is empty. */
  const Exhausted: string := ""

  /** The three pieces of component state: `remainingQuestions`,
      `currentQuestion` (None stands for `null`) and `gameOver`. */
  datatype State = State(remaining: seq<string>, current: Option<string>, gameOver: bool)

  /** A draw's returned question together with the state it leaves. */
  datatype Drawn = Drawn(question: string, after: State)

  /** What `gameOver` means: it is only ever set once the list is empty. */
  predicate GameOverMeansEmpty(st: State)
  {
    st.gameOver ==> st.remaining == []
  }

  /** The state the component mounts with: the full pool remains, nothing
      is shown, and the game is on. Over a duplicate-free pool it already
      satisfies the pool invariant. */
  function Mounted(pool: seq<string>): (st: State)
    ensures st.remaining == pool && st.current.None? && !st.gameOver
    ensures Distinct(pool) ==> PoolInvariant(pool, st.remaining) && GameOverMeansEmpty(st)
  {
    SubsequenceReflexive(pool);
    State(pool, None, false)
  }

  /** What the remaining list always is: questions of the pool, in pool
      order, each at most once. */
  predicate PoolInvariant(pool: seq<string>, remaining: seq<string>)
  {
    Distinct(remaining) && IsSubsequence(remaining, pool)
  }

  /** The caller-chosen index stands for `Math.floor(Math.random() * length)`:
      it is only needed, and must then be in range, when the list is non-empty. */
  predicate IndexFits(remaining: seq<string>, idx: nat)
  {
    remaining != [] ==> idx < |remaining|
  }

  /** `getRandomQuestion`: on an empty list, flag game over and return the
      empty string; otherwise return the element at `idx` and drop it (and
      any copy of it) from the list. `currentQuestion` is not touched. */
  function Draw(st: State, idx: nat): (d: Drawn)
    requires IndexFits(st.remaining, idx)
    ensures d.after.current == st.current
    ensures st.remaining == [] ==> d.question == Exhausted && d.after.gameOver && d.after.remaining == []
    ensures st.remaining != [] ==>
      && d.question in st.remaining
      && d.after.gameOver == st.gameOver
      && d.question !in d.after.remaining
      && (forall y :: y in st.remaining && y != d.question ==> y in d.after.remaining)
      && IsSubsequence(d.after.remaining, st.remaining)
    ensures st.remaining != [] && Distinct(st.remaining) ==>
      && Distinct(d.after.remaining)
      && |d.after.remaining| == |st.remaining| - 1
      && multiset(st.remaining) == multiset{d.question} + multiset(d.after.remaining)
    ensures GameOverMeansEmpty(st) ==> GameOverMeansEmpty(d.after)
  {
    if st.remaining == [] then
      Drawn(Exhausted, st.(gameOver := true))
    else
      var q := st.remaining[idx];
      var rest := Without(st.remaining, q);
      WithoutIsSubsequence(st.remaining, q);
      RemoveFromDistinct(st.remaining, idx);
      Drawn(q, st.(remaining := rest))
  }

  /** Removing a member of a duplicate-free list keeps it duplicate-free,
      shrinks it by one and takes exactly one copy out of its multiset. */
  lemma RemoveFromDistinct(remaining: seq<string>, idx: nat)
    requires idx < |remaining|
    ensures Distinct(remaining) ==>
      && Distinct(Without(remaining, remaining[idx]))
      && |Without(remaining, remaining[idx])| == |remaining| - 1
      && multiset(remaining) == multiset{remaining[idx]} + multiset(Without(remaining, remaining[idx]))
  {
    if Distinct(remaining) {
      var q := remaining[idx];
      WithoutKeepsDistinct(remaining, q);
      WithoutShrinksByOne(remaining, q);
      DistinctOccursOnce(remaining, q);
    }
  }

  /** A draw keeps the remaining list a duplicate-free subsequence of the
      pool, and a pool without the empty string never yields the
      exhaustion sentinel as a question. */
  lemma DrawKeepsInvariant(pool: seq<string>, st: State, idx: nat)
    requires PoolInvariant(pool, st.remaining) && IndexFits(st.remaining, idx)
    ensures PoolInvariant(pool, Draw(st, idx).after.remaining)
    ensures Exhausted !in pool && st.remaining != [] ==> Draw(st, idx).question != Exhausted
  {
    var d := Draw(st, idx);
    if st.remaining != [] {
      SubsequenceTransitive(d.after.remaining, st.remaining, pool);
      SubsequenceMembers(st.remaining, pool, d.question);
    }
  }

  /** The "Play again?" reset at the start of `generateQuestion`: only when
      the game is over does it restore the full pool and clear the flag. */
  function Reset(pool: seq<string>, st: State): (r: State)
    ensures st.gameOver ==> r.remaining == pool && !r.gameOver
    ensures !st.gameOver ==> r == st
    ensures r.current == st.current
  {
    if st.gameOver then st.(remaining := pool, gameOver := false) else st
  }

  /** `generateQuestion` with the reset and the deferred draw run one after
      the other: the draw's result becomes the current question. */
  function Generate(pool: seq<string>, st: State, idx: nat): (r: State)
    requires IndexFits(Reset(pool, st).remaining, idx)
    ensures r.current.Some?
    ensures r.gameOver <==> Reset(pool, st).remaining == []
    ensures Reset(pool, st).remaining == [] ==> r.current == Some(Exhausted) && r.remaining == []
    ensures Reset(pool, st).remaining != [] ==>
      r.current.value in Reset(pool, st).remaining && r.current.value !in r.remaining
    ensures GameOverMeansEmpty(r)
  {
    var d := Draw(Reset(pool, st), idx);
    d.after.(current := Some(d.question))
  }

  /** A click keeps the pool invariant, and the list it leaves plus the
      question it shows are exactly the list it drew from. */
  lemma GenerateKeepsInvariant(pool: seq<string>, st: State, idx: nat)
    requires Distinct(pool) && PoolInvariant(pool, st.remaining)
    requires IndexFits(Reset(pool, st).remaining, idx)
    ensures PoolInvariant(pool, Generate(pool, st, idx).remaining)
    ensures Generate(pool, st, idx).current.Some?
    ensures Reset(pool, st).remaining != [] ==>
      multiset(Reset(pool, st).remaining)
        == multiset{Generate(pool, st, idx).current.value} + multiset(Generate(pool, st, idx).remaining)
  {
    var r := Reset(pool, st);
    if st.gameOver {
      SubsequenceReflexive(pool);
    }
    DrawKeepsInvariant(pool, r, idx);
  }

  /** A click after game over restores the full pool, clears the flag and
      shows the question at the chosen index of the pool; the list left
      behind is the pool without that one position. */
  lemma GenerateAfterGameOver(pool: seq<string>, st: State, idx: nat)
    requires Distinct(pool) && st.gameOver && idx < |pool|
    ensures Generate(pool, st, idx) == State(pool[..idx] + pool[idx + 1..], Some(pool[idx]), false)
  {
    WithoutAt(pool, idx);
  }

  /** While game over is clear, a click is exactly one `getRandomQuestion`
      draw whose result becomes the current question, so a run of draws
      from mount is a run of clicks. */
  lemma ClickIsDraw(pool: seq<string>, st: State, idx: nat)
    requires !st.gameOver && IndexFits(st.remaining, idx)
    ensures IndexFits(Reset(pool, st).remaining, idx)
    ensures Generate(pool, st, idx) == Draw(st, idx).after.(current := Some(Draw(st, idx).question))
  {
  }

  /** The index list fits a run of draws that starts from `n` questions
      when each index is below the number of questions left at its draw. */
  predicate IndicesFit(n: nat, idxs: seq<nat>)
  {
    forall k :: 0 <= k < |idxs| && k < n ==> idxs[k] < n - k
  }

  /** After one draw from `n > 0` questions, the rest of the indices fit
      the `n - 1` left. */
  lemma IndicesFitTail(n: nat, idxs: seq<nat>)
    requires IndicesFit(n, idxs) && n > 0 && idxs != []
    ensures idxs[0] < n
    ensures IndicesFit(n - 1, idxs[1..])
  {
    forall k | 0 <= k < |idxs[1..]| && k < n - 1 ensures idxs[1..][k] < n - 1 - k {
      assert idxs[1..][k] == idxs[k + 1];
    }
  }

  /** Repeated `getRandomQuestion` calls: the questions returned, in order,
      and the final state. */
  function DrawMany(st: State, idxs: seq<nat>): (r: (seq<string>, State))
    requires Distinct(st.remaining) && IndicesFit(|st.remaining|, idxs)
    ensures |r.0| == |idxs|
    ensures Distinct(r.1.remaining)
    ensures IsSubsequence(r.1.remaining, st.remaining)
    decreases |idxs|
  {
    if idxs == [] then
      SubsequenceReflexive(st.remaining);
      ([], st)
    else
      var d := Draw(st, idxs[0]);
      var more := DrawMany(d.after, idxs[1..]);
      SubsequenceTransitive(more.1.remaining, d.after.remaining, st.remaining);
      ([d.question] + more.0, more.1)
  }

  /** Starting from any duplicate-free list of `n` questions, `n` draws
      return each of them exactly once and empty the list, without setting
      game over. */
  lemma {:induction false} DrawManyCycle(st: State, idxs: seq<nat>)
    requires Distinct(st.remaining) && IndicesFit(|st.remaining|, idxs)
    requires |idxs| == |st.remaining|
    ensures multiset(DrawMany(st, idxs).0) == multiset(st.remaining)
    ensures Distinct(DrawMany(st, idxs).0)
    ensures DrawMany(st, idxs).1 == st.(remaining := [])
    decreases |idxs|
  {
    if idxs != [] {
      var d := Draw(st, idxs[0]);
      IndicesFitTail(|st.remaining|, idxs);
      DrawManyCycle(d.after, idxs[1..]);
      var tail := DrawMany(d.after, idxs[1..]);
      assert DrawMany(st, idxs) == ([d.question] + tail.0, tail.1);
      assert multiset([d.question] + tail.0) == multiset{d.question} + multiset(tail.0);
      assert d.question !in multiset(tail.0);
      DistinctCons(d.question, tail.0);
    }
  }

  /** Once the list is empty, every further draw returns the empty string,
      sets game over and changes nothing else. */
  lemma {:induction false} ExhaustionPersists(st: State, idxs: seq<nat>)
    requires st.remaining == [] && idxs != []
    ensures DrawMany(st, idxs).0 == seq(|idxs|, _ => Exhausted)
    ensures DrawMany(st, idxs).1 == st.(gameOver := true)
    decreases |idxs|
  {
    var d := Draw(st, idxs[0]);
    if |idxs| > 1 {
      ExhaustionPersists(d.after, idxs[1..]);
    }
  }

  /** A round from a freshly mounted picker over a duplicate-free pool:
      `|pool|` draws return each question exactly once, and the next draw
      returns the empty string and sets game over. */
  lemma RoundFromMount(pool: seq<string>, idxs: seq<nat>, next: nat)
    requires Distinct(pool) && |idxs| == |pool| && IndicesFit(|pool|, idxs)
    ensures multiset(DrawMany(Mounted(pool), idxs).0) == multiset(pool)
    ensures Distinct(DrawMany(Mounted(pool), idxs).0)
    ensures DrawMany(Mounted(pool), idxs).1 == State([], None, false)
    ensures Draw(DrawMany(Mounted(pool), idxs).1, next) == Drawn(Exhausted, State([], None, true))
  {
    DrawManyCycle(Mounted(pool), idxs);
  }

  /** From the mounted component, eight draws return each of the eight
      questions exactly once; the ninth returns the empty string and sets
      game over. */
  lemma FullRound(idxs: seq<nat>, ninth: nat)
    requires |idxs| == |Questions| && IndicesFit(|Questions|, idxs)
    ensures Distinct(Questions)
    ensures multiset(DrawMany(Mounted(Questions), idxs).0) == multiset(Questions)
    ensures Distinct(DrawMany(Mounted(Questions), idxs).0)
    ensures DrawMany(Mounted(Questions), idxs).1.remaining == []
    ensures Draw(DrawMany(Mounted(Questions), idxs).1, ninth) == Drawn(Exhausted, State([], None, true))
  {
    QuestionsAreDistinct();
    RoundFromMount(Questions, idxs, ninth);
  }

  /** Whatever state a round ended in, a click after game over restores
      the pool: that click and the `|pool| - 1` draws after it show every
      question exactly once and leave the list empty. */
  lemma PlayAgainRestartsRound(pool: seq<string>, st: State, idxs: seq<nat>)
    requires Distinct(pool) && st.gameOver
    requires |idxs| == |pool| && IndicesFit(|pool|, idxs)
    ensures idxs != [] ==> IndexFits(Reset(pool, st).remaining, idxs[0])
    ensures idxs != [] ==>
      var first := Generate(pool, st, idxs[0]);
      && Distinct(first.remaining)
      && IndicesFit(|first.remaining|, idxs[1..])
      && multiset{first.current.value} + multiset(DrawMany(first, idxs[1..]).0) == multiset(pool)
      && DrawMany(first, idxs[1..]).1 == first.(remaining := [])
  {
    if idxs != [] {
      IndicesFitTail(|pool|, idxs);
      var r := Reset(pool, st);
      var d := Draw(r, idxs[0]);
      var first := Generate(pool, st, idxs[0]);
      assert first == d.after.(current := Some(d.question));
      DrawManyCycle(first, idxs[1..]);
    }
  }

  /** The pool has no repeated question and no empty question. */
  lemma QuestionsAreDistinct()
    ensures Distinct(Questions)
    ensures Exhausted !in Questions
  {
  }

  /** Every question has an image and the image table names no other key. */
  lemma ImagesCoverPool()
    ensures QuestionImages.Keys == set q | q in Questions
  {
  }

  /** `generateQuestion` as the component actually runs it: the reset's
      writes land at once, but the draw deferred by the timer reads the
      list captured when the button was clicked, i.e. before the reset;
      its own writes then land after the reset's. */
  function GenerateAsWritten(pool: seq<string>, st: State, idx: nat): (r: State)
    requires IndexFits(st.remaining, idx)
    ensures st.remaining == [] ==>
      r.gameOver && r.current == Some(Exhausted) && r.remaining == Reset(pool, st).remaining
    ensures st.remaining != [] ==>
      && r.current.Some? && r.current.value in st.remaining && r.current.value !in r.remaining
      && r.gameOver == Reset(pool, st).gameOver
      && r.remaining == Without(st.remaining, r.current.value)
  {
    var reset := Reset(pool, st);
    var d := Draw(st, idx);
    if st.remaining == [] then reset.(gameOver := true, current := Some(d.question))
    else reset.(remaining := d.after.remaining, current := Some(d.question))
  }

  /** The stale read only matters on the "Play again?" click after an
      exhausted round: it then shows no question and leaves game over set,
      whereas the intended reset-then-draw shows the question at the
      chosen index of the restored pool. */
  lemma PlayAgainAsWrittenShowsNothing(st: State, idx: nat)
    requires st.gameOver && st.remaining == [] && idx < |Questions|
    ensures GenerateAsWritten(Questions, st, idx) == st.(remaining := Questions, current := Some(Exhausted))
    ensures GenerateAsWritten(Questions, st, idx).gameOver
    ensures Generate(Questions, st, idx).current == Some(Questions[idx])
    ensures Questions[idx] != Exhausted && !Generate(Questions, st, idx).gameOver
    ensures !GameOverMeansEmpty(GenerateAsWritten(Questions, st, idx))
  {
    QuestionsAreDistinct();
  }

  /** On every other click (game not over, or the list already equal to the
      pool) the code as written and the intended sequence agree. */
  lemma AsWrittenAgreesOtherwise(pool: seq<string>, st: State, idx: nat)
    requires !st.gameOver || st.remaining == pool
    requires IndexFits(st.remaining, idx)
    ensures IndexFits(Reset(pool, st).remaining, idx)
    ensures GenerateAsWritten(pool, st, idx) == Generate(pool, st, idx)
  {
  }

  /** The component's state hooks as one object: the `questions` constant
      and the three `useState` fields that the two handlers update. */
  class QuestionPicker {
    const questions: seq<string>
    var remainingQuestions: seq<string>
    var currentQuestion: Option<string>
    var gameOver: bool

    /** The fields as a `State` value. */
    function Snapshot(): (st: State)
      reads this
      ensures st.remaining == remainingQuestions && st.current == currentQuestion && st.gameOver == gameOver
    {
      State(remainingQuestions, currentQuestion, gameOver)
    }

    /** The pool has no duplicates, the remaining list is a duplicate-free
        subsequence of it, and game over is only set on an empty list. */
    ghost predicate Valid()
      reads this
    {
      && Distinct(questions)
      && PoolInvariant(questions, remainingQuestions)
      && GameOverMeansEmpty(Snapshot())
    }

    /** Mounting: the full pool remains, nothing is shown, the game is on. */
    constructor ()
      ensures Valid()
      ensures questions == Questions && Snapshot() == Mounted(Questions)
    {
      questions := Questions;
      remainingQuestions := Questions;
      currentQuestion := None;
      gameOver := false;
      QuestionsAreDistinct();
      SubsequenceReflexive(Questions);
    }

    /** `getRandomQuestion`, with `idx` in place of the random index. */
    method GetRandomQuestion(idx: nat) returns (q: string)
      requires Valid() && IndexFits(remainingQuestions, idx)
      modifies this
      ensures Valid()
      ensures Drawn(q, Snapshot()) == Draw(old(Snapshot()), idx)
      ensures old(remainingQuestions) == [] ==> q == Exhausted && gameOver && remainingQuestions == []
      ensures old(remainingQuestions) != [] ==>
        && q in old(remainingQuestions) && q !in remainingQuestions
        && |remainingQuestions| == |old(remainingQuestions)| - 1
        && gameOver == old(gameOver)
      ensures currentQuestion == old(currentQuestion)
    {
      ghost var before := Snapshot();
      DrawKeepsInvariant(questions, before, idx);
      if |remainingQuestions| == 0 {
        gameOver := true;
        return Exhausted;
      }
      var selected := remainingQuestions[idx];
      remainingQuestions := Without(remainingQuestions, selected);
      q := selected;
    }

    /** `generateQuestion`: reset after game over, then draw and show the
        result; the timer between the two is not modelled. */
    method GenerateQuestion(idx: nat)
      requires Valid() && IndexFits(Reset(questions, Snapshot()).remaining, idx)
      modifies this
      ensures Valid()
      ensures Snapshot() == Generate(questions, old(Snapshot()), idx)
      ensures old(gameOver) && questions != [] ==> currentQuestion == Some(questions[idx]) && !gameOver
    {
      if gameOver {
        remainingQuestions := questions;
        gameOver := false;
        SubsequenceReflexive(questions);
      }
      var q := GetRandomQuestion(idx);
      currentQuestion := Some(q);
    }
  }
}
