/**
 * The review session of src/App.jsx: the list of words due today, a cursor
 * into it, the "finished" flag and the "show meaning" toggle. Each answer
 * records one outcome with the scheduler and moves the cursor on.
 */
module App {
  import opened Dates
  import opened Catalog
  import opened ReviewStorage

  /**
   * `Math.round(completed / total * 100)` in exact arithmetic: the nearest
   * whole percentage, halves rounded up, and 0 when there is nothing to do.
   */
  function ProgressPercent(completed: nat, total: nat): (r: nat)
    ensures total == 0 ==> r == 0
    ensures completed <= total ==> r <= 100
    ensures total > 0 ==> -(total as int) <= 2 * (100 * completed - r * total) < total
  {
    if total == 0 then 0
    else
      var r := (200 * completed + total) / (2 * total);
      RoundedQuotient(200 * completed + total, 2 * total);
      assert completed <= total ==> 200 * completed + total < 2 * total * 101;
      r
  }

  lemma RoundedQuotient(n: nat, d: nat)
    requires d > 0
    ensures d * (n / d) <= n < d * (n / d) + d
    ensures n < d * 101 ==> n / d <= 100
  {
  }

  /** The App component's session state. */
  class Session {
    /** The storage slot the scheduler reads and writes. */
    const store: ProgressStore
    var todayWords: seq<DueWord>
    var currentIndex: int
    var finished: bool
    var showMeaning: bool

    /**
     * The cursor is on a word of the list (or 0 for an empty list), and a
     * finished session is empty or stands on its last word.
     */
    ghost predicate Valid()
      reads this
    {
      && 0 <= currentIndex
      && (todayWords == [] ==> currentIndex == 0 && finished)
      && (todayWords != [] ==> currentIndex < |todayWords|)
      && (finished && todayWords != [] ==> currentIndex == |todayWords| - 1)
    }

    /** The mount effect: load today's due words and start at the first one. */
    constructor (store: ProgressStore, catalog: seq<Word>, today: Date)
      requires ValidDate(today)
      modifies store
      ensures Valid() && this.store == store
      ensures todayWords == DueWords(catalog, InitProgress(Load(old(store.slot)), catalog, FormatDate(today)), FormatDate(today))
      ensures store.slot == InitSlot(old(store.slot), catalog, FormatDate(today))
      ensures currentIndex == 0 && !showMeaning && (finished <==> todayWords == [])
    {
      this.store := store;
      var list := store.GetTodayReviewWords(catalog, today);
      todayWords := list;
      finished := list == [];
      currentIndex := 0;
      showMeaning := false;
    }

    /** The number of words in today's list. */
    function TotalCount(): (n: nat)
      reads this
      ensures Valid() && n == 0 ==> finished && currentIndex == 0
      ensures Valid() && n > 0 ==> currentIndex < n
    {
      |todayWords|
    }

    /** Words before the cursor count as done; never more than the total. */
    function CompletedCount(): (c: nat)
      reads this
      requires Valid()
      ensures c <= TotalCount()
      ensures TotalCount() > 0 ==> c < TotalCount()
    {
      currentIndex
    }

    /** The progress bar's percentage. */
    function Percent(): (r: nat)
      reads this
      requires Valid()
      ensures TotalCount() == 0 ==> r == 0
      ensures r <= 100
    {
      ProgressPercent(CompletedCount(), TotalCount())
    }

    /** handleShowMeaning: reveal the meaning of the current word. */
    method HandleShowMeaning()
      requires Valid()
      modifies this
      ensures Valid() && showMeaning
      ensures todayWords == old(todayWords) && currentIndex == old(currentIndex) && finished == old(finished)
    {
      showMeaning := true;
    }

    /** The cursor step of handleAnswer: hide the meaning, then advance or finish. */
    method MoveOn()
      requires Valid() && currentIndex < |todayWords|
      modifies this
      ensures Valid() && todayWords == old(todayWords) && !showMeaning
      ensures old(currentIndex) + 1 < |todayWords| ==> currentIndex == old(currentIndex) + 1 && !finished
      ensures old(currentIndex) + 1 >= |todayWords| ==> currentIndex == old(currentIndex) && finished
    {
      var next := currentIndex + 1;
      if next >= |todayWords| {
        finished := true;
        showMeaning := false;
      } else {
        currentIndex := next;
        showMeaning := false;
      }
    }

    /**
     * handleAnswer: with no word at the cursor nothing happens. Otherwise the
     * outcome is recorded once for the current word. When the update throws
     * (the stage after the step is still off the ladder) the handler stops there and the session
     * keeps its state; else the meaning is hidden and the cursor moves to the
     * next word or, after the last, the session finishes with the cursor left
     * where it was.
     */
    method HandleAnswer(isCorrect: bool, today: Date)
      requires Valid() && ValidDate(today)
      modifies this, store
      ensures Valid() && todayWords == old(todayWords)
      ensures !(0 <= old(currentIndex) < |todayWords|) ==> unchanged(this) && unchanged(store)
      ensures 0 <= old(currentIndex) < |todayWords| ==>
                store.slot == AfterReview(old(store.slot), todayWords[old(currentIndex)].word.id, isCorrect, today)
      ensures 0 <= old(currentIndex) < |todayWords| &&
              UpdatedProgress(Load(old(store.slot)), todayWords[old(currentIndex)].word.id, isCorrect, today).None? ==>
                unchanged(this) && store.slot == old(store.slot)
      ensures 0 <= old(currentIndex) < |todayWords| &&
              UpdatedProgress(Load(old(store.slot)), todayWords[old(currentIndex)].word.id, isCorrect, today).Some? ==>
                && !showMeaning
                && (old(currentIndex) + 1 < |todayWords| ==> currentIndex == old(currentIndex) + 1 && !finished)
                && (old(currentIndex) + 1 >= |todayWords| ==> currentIndex == old(currentIndex) && finished)
    {
      if !(0 <= currentIndex < |todayWords|) {
        return;
      }
      var current := todayWords[currentIndex];
      var ok := store.UpdateProgressAfterReview(current.word.id, isCorrect, today);
      if !ok {
        return;
      }
      MoveOn();
    }
  }
}
