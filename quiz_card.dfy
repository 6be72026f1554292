/**
 * The multiple-choice card of src/QuizCard.jsx: it builds up to four options
 * for a word (its own meaning and at most three meanings of other words, in
 * random order) and takes exactly one answer.
 *
 * The word pool is a parameter. `Math.random` is replaced by a
 * nondeterministic choice, so every property holds for every order the
 * shuffle could produce.
 */
module QuizCard {
  import opened Wrappers
  import opened Catalog

  /** One option: `{text, isCorrect}`. */
  datatype Choice = Choice(text: string, isCorrect: bool)

  /** The feedback line: none yet, "correct", or "wrong, the answer is ...". */
  datatype Feedback = NoFeedback | RightAnswer | WrongAnswer(correctText: string)

  /** `pool.filter((w) => w.id !== word.id)`: the candidate distractors, in pool order. */
  function Others(pool: seq<Word>, id: Id): (r: seq<Word>)
    ensures |r| <= |pool|
    ensures forall w :: w in r <==> w in pool && w.id != id
  {
    if pool == [] then []
    else
      assert pool == [pool[0]] + pool[1..];
      (if pool[0].id != id then [pool[0]] else []) + Others(pool[1..], id)
  }

  /** The filter keeps every other word as many times as the pool holds it, and drops the current word's id. */
  lemma {:induction false} OthersCount(pool: seq<Word>, id: Id, w: Word)
    ensures multiset(Others(pool, id))[w] == if w.id != id then multiset(pool)[w] else 0
  {
    if pool != [] {
      assert pool == [pool[0]] + pool[1..];
      OthersCount(pool[1..], id, w);
    }
  }

  /**
   * shuffle: copy the input into a fresh array and, from the last position
   * down to 1, swap position `i` with a position `j <= i` picked at random.
   * The result is a permutation of the input; the input is a value and
   * stays as it was.
   */
  method Shuffle<T>(s: seq<T>) returns (r: seq<T>)
    ensures |r| == |s|
    ensures multiset(r) == multiset(s)
  {
    var a := new T[|s|](k requires 0 <= k < |s| => s[k]);
    assert a[..] == s;
    var i := a.Length - 1;
    while i > 0
      invariant -1 <= i < a.Length
      invariant multiset(a[..]) == multiset(s)
    {
      var j :| 0 <= j <= i;
      ghost var before := a[..];
      a[i], a[j] := a[j], a[i];
      assert a[..] == before[i := before[j]][j := before[i]];
      SwapKeepsElements(before, i, j);
      i := i - 1;
    }
    r := a[..];
  }

  /** Exchanging two positions keeps the same elements. */
  lemma SwapKeepsElements<T>(s: seq<T>, i: int, j: int)
    requires 0 <= i < |s| && 0 <= j < |s|
    ensures multiset(s[i := s[j]][j := s[i]]) == multiset(s)
  {
  }

  /** `shuffledOthers.slice(0, 3).map(...)`: wrong options from the first three words. */
  function WrongChoices(ws: seq<Word>): (r: seq<Choice>)
    ensures |r| == Min(3, |ws|)
    ensures forall k :: 0 <= k < |r| ==> r[k] == Choice(ws[k].meaningZh, false)
  {
    var n := Min(3, |ws|);
    seq(n, k requires 0 <= k < n => Choice(ws[k].meaningZh, false))
  }

  /** `findIndex((o) => o.isCorrect)`: the first correct option, or -1 if there is none. */
  function FindCorrect(options: seq<Choice>): (k: int)
    ensures -1 <= k < |options|
    ensures k == -1 <==> forall i :: 0 <= i < |options| ==> !options[i].isCorrect
    ensures k >= 0 ==> options[k].isCorrect && forall i :: 0 <= i < k ==> !options[i].isCorrect
  {
    if options == [] then -1
    else if options[0].isCorrect then 0
    else
      var k := FindCorrect(options[1..]);
      if k == -1 then -1 else k + 1
  }

  /**
   * What the options for `word` promise: one more than the distractors used
   * (at most three), exactly one correct option carrying the word's own
   * meaning at `correctIndex`, and every other option the meaning of some
   * other word of the pool.
   */
  ghost predicate ValidOptions(options: seq<Choice>, correctIndex: int, word: Word, pool: seq<Word>)
  {
    && |options| == 1 + Min(3, |Others(pool, word.id)|)
    && 0 <= correctIndex < |options|
    && options[correctIndex] == Choice(word.meaningZh, true)
    && (forall k :: 0 <= k < |options| && k != correctIndex ==> !options[k].isCorrect)
    && (forall k :: 0 <= k < |options| && k != correctIndex ==>
          exists w :: w in pool && w.id != word.id && options[k].text == w.meaningZh)
  }

  /** An element found at two positions is counted at least twice. */
  lemma TwoPositions<T>(s: seq<T>, i: int, j: int)
    requires 0 <= i < j < |s| && s[i] == s[j]
    ensures multiset(s)[s[i]] >= 2
  {
    assert s == s[..i] + [s[i]] + s[i + 1..j] + [s[j]] + s[j + 1..];
  }

  lemma ExactlyOneCorrect(options: seq<Choice>, correct: Choice, wrong: seq<Choice>)
    requires correct.isCorrect
    requires forall k :: 0 <= k < |wrong| ==> !wrong[k].isCorrect
    requires multiset(options) == multiset([correct] + wrong)
    ensures var c := FindCorrect(options);
            && 0 <= c < |options| && options[c] == correct
            && forall k :: 0 <= k < |options| && k != c ==> !options[k].isCorrect && options[k] in wrong
  {
    assert correct !in wrong;
    assert multiset([correct] + wrong)[correct] == 1 by {
      assert multiset(wrong)[correct] == 0;
    }
    assert correct in options by {
      assert correct in multiset(options);
    }
    var c := FindCorrect(options);
    assert options[c] in multiset([correct] + wrong);
    assert options[c] == correct;
    forall k | 0 <= k < |options| && k != c
      ensures !options[k].isCorrect && options[k] in wrong
    {
      assert options[k] in multiset([correct] + wrong);
      if options[k] == correct {
        if k < c {
          TwoPositions(options, k, c);
        } else {
          TwoPositions(options, c, k);
        }
        assert false;
      }
    }
  }

  /**
   * The option-building effect: exclude the word itself, shuffle, keep at
   * most three wrong meanings, add the right one, shuffle again, and find
   * the right one's index. `drawn` is the shuffled pool the wrong options
   * were taken from.
   */
  method BuildOptions(word: Word, pool: seq<Word>) returns (options: seq<Choice>, correctIndex: int, ghost drawn: seq<Word>)
    ensures multiset(drawn) == multiset(Others(pool, word.id))
    ensures multiset(options) == multiset([Choice(word.meaningZh, true)] + WrongChoices(drawn))
    ensures ValidOptions(options, correctIndex, word, pool)
  {
    var others := Others(pool, word.id);
    var correctOption := Choice(word.meaningZh, true);
    var shuffledOthers := Shuffle(others);
    var wrongOptions := WrongChoices(shuffledOthers);
    options := Shuffle([correctOption] + wrongOptions);
    correctIndex := FindCorrect(options);
    drawn := shuffledOthers;

    ExactlyOneCorrect(options, correctOption, wrongOptions);
    forall k | 0 <= k < |options| && k != correctIndex
      ensures exists w :: w in pool && w.id != word.id && options[k].text == w.meaningZh
    {
      var m :| 0 <= m < |wrongOptions| && wrongOptions[m] == options[k];
      var w := shuffledOthers[m];
      assert w in multiset(others);
      assert w in others;
    }
  }

  /** The card's state: the options for the current word and the answer lock. */
  class Card {
    var word: Word
    var options: seq<Choice>
    var selectedIndex: Option<int>
    var correctIndex: int
    var feedback: Feedback
    var locked: bool
    /** The outcomes handed to `onAnswer` since the current word was loaded. */
    var answers: seq<bool>

    /** The lock is set exactly when one option was chosen and its outcome reported once. */
    ghost predicate Valid()
      reads this
    {
      && 0 <= correctIndex < |options| && options[correctIndex].isCorrect
      && (locked <==> selectedIndex.Some?)
      && (selectedIndex.Some? ==> 0 <= selectedIndex.value < |options|)
      && (!locked ==> answers == [] && feedback == NoFeedback)
      && (locked ==> answers == [options[selectedIndex.value].isCorrect])
      && (locked ==> feedback == if options[selectedIndex.value].isCorrect then RightAnswer
                                 else WrongAnswer(options[correctIndex].text))
    }

    /** Mounting the card runs the option-building effect once. */
    constructor (word: Word, pool: seq<Word>)
      ensures Valid() && this.word == word
      ensures ValidOptions(options, correctIndex, word, pool)
      ensures selectedIndex == None && !locked && feedback == NoFeedback && answers == []
    {
      this.word := word;
      options := [];
      selectedIndex := None;
      correctIndex := -1;
      feedback := NoFeedback;
      locked := false;
      answers := [];
      new;
      LoadWord(word, pool);
    }

    /** The effect that runs whenever `word` changes: new options and a reset selection. */
    method LoadWord(word: Word, pool: seq<Word>)
      modifies this
      ensures Valid() && this.word == word
      ensures ValidOptions(options, correctIndex, word, pool)
      ensures selectedIndex == None && !locked && feedback == NoFeedback && answers == []
    {
      var allOptions: seq<Choice>;
      var idx: int;
      ghost var drawn: seq<Word>;
      allOptions, idx, drawn := BuildOptions(word, pool);
      this.word := word;
      options := allOptions;
      selectedIndex := None;
      locked := false;
      feedback := NoFeedback;
      correctIndex := idx;
      answers := [];
    }

    /**
     * handleSelect: ignored once locked or for an index with no option;
     * otherwise records the choice, locks, and reports its outcome once.
     */
    method HandleSelect(index: int)
      requires Valid()
      modifies this
      ensures Valid()
      ensures old(locked) || !(0 <= index < |old(options)|) ==> unchanged(this)
      ensures !old(locked) && 0 <= index < |old(options)| ==>
                && word == old(word) && options == old(options) && correctIndex == old(correctIndex)
                && selectedIndex == Some(index) && locked
                && answers == [options[index].isCorrect]
                && feedback == if options[index].isCorrect then RightAnswer else WrongAnswer(options[correctIndex].text)
    {
      if locked {
        return;
      }
      if !(0 <= index < |options|) {
        return;
      }
      var opt := options[index];
      var isCorrect := opt.isCorrect;
      selectedIndex := Some(index);
      locked := true;
      if isCorrect {
        feedback := RightAnswer;
      } else {
        var correctOpt := options[correctIndex];
        feedback := WrongAnswer(correctOpt.text);
      }
      // the delayed `onAnswer(isCorrect)` call, taken as fired once
      answers := answers + [isCorrect];
    }
  }
}
