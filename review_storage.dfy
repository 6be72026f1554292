/**
 * The spaced-repetition scheduler of src/reviewStorage.js.
 *
 * Each word of the catalog has a progress record: a stage on the interval
 * ladder and the day it is next due. The whole map of records lives in one
 * storage slot and is read and written as a single value. The catalog and
 * "today" are parameters here; the source reads a module constant and the
 * system clock.
 */
module ReviewStorage {
  import opened Wrappers
  import opened Dates
  import opened Catalog

  /** INTERVALS: the days to wait before the next review, by stage. */
  const Intervals: seq<nat> := [0, 1, 2, 4, 7, 15, 30]

  /** `INTERVALS.length - 1`, the top of the ladder. */
  const LastStage: nat := |Intervals| - 1

  /** `{id, stageIndex, nextReviewDate}`; the date is kept as its `YYYY-MM-DD` text. */
  datatype Record = Record(id: Id, stageIndex: int, nextReviewDate: string)

  /** The progress object: word id to record. */
  type Progress = map<Id, Record>

  /** One element of getTodayReviewWords' result: `{word, progress}`. */
  datatype DueWord = DueWord(word: Word, progress: Record)

  /**
   * What the storage slot holds: nothing (or the empty string), text that is
   * not valid JSON, or a serialized progress map.
   */
  datatype Slot = Missing | Unparseable | Stored(progress: Progress)

  lemma IntervalLadder()
    ensures |Intervals| == 7 && LastStage == 6 && Intervals[0] == 0
    ensures forall i, j :: 0 <= i < j < |Intervals| ==> Intervals[i] < Intervals[j]
  {
  }

  // ---------------------------------------------------------------------
  // Loading and saving
  // ---------------------------------------------------------------------

  /** loadProgress: the stored map; nothing stored or unparseable text loads as the empty map. */
  function Load(slot: Slot): (p: Progress)
    ensures slot.Stored? ==> p == slot.progress
    ensures !slot.Stored? ==> p == map[]
  {
    match slot
    case Stored(p) => p
    case _ => map[]
  }

  /** Saving a map and loading it again gives the same map. */
  lemma SaveThenLoad(p: Progress)
    ensures Load(Stored(p)) == p
  {
  }

  lemma CorruptLoadsEmpty()
    ensures Load(Missing) == map[] && Load(Unparseable) == map[]
  {
  }

  // ---------------------------------------------------------------------
  // Initialisation
  // ---------------------------------------------------------------------

  /**
   * The map initProgressIfEmpty builds by visiting `words` in order: one
   * record per id, at stage 0 and due `today`.
   */
  function FreshProgress(words: seq<Word>, today: string): (p: Progress)
    ensures p.Keys == Ids(words)
    ensures forall id :: id in p ==> p[id] == Record(id, 0, today)
  {
    if words == [] then map[]
    else
      var last := words[|words| - 1];
      assert words == words[..|words| - 1] + [last];
      FreshProgress(words[..|words| - 1], today)[last.id := Record(last.id, 0, today)]
  }

  /** Extending the catalog prefix by one word adds (or resets) that word's record. */
  lemma FreshProgressStep(catalog: seq<Word>, i: int, today: string)
    requires 0 <= i < |catalog|
    ensures FreshProgress(catalog[..i + 1], today)
            == FreshProgress(catalog[..i], today)[catalog[i].id := Record(catalog[i].id, 0, today)]
  {
    assert catalog[..i + 1][..i] == catalog[..i];
  }

  /**
   * The `forEach` of initProgressIfEmpty: visits the catalog in order and
   * writes a stage-0 record due `today` for each word, a later duplicate id
   * overwriting an earlier one.
   */
  method BuildFreshProgress(catalog: seq<Word>, today: string) returns (built: Progress)
    ensures built == FreshProgress(catalog, today)
  {
    built := map[];
    var i := 0;
    while i < |catalog|
      invariant 0 <= i <= |catalog|
      invariant built == FreshProgress(catalog[..i], today)
    {
      var w := catalog[i];
      FreshProgressStep(catalog, i, today);
      built := built[w.id := Record(w.id, 0, today)];
      i := i + 1;
    }
    assert catalog[..|catalog|] == catalog;
  }

  /** A catalog has as many distinct ids as entries exactly when no id repeats. */
  lemma {:induction false} IdsCount(words: seq<Word>)
    ensures |Ids(words)| <= |words|
    ensures |Ids(words)| == |words| <==> DistinctIds(words)
  {
    if words != [] {
      var init, last := words[..|words| - 1], words[|words| - 1];
      assert words == init + [last];
      IdsSnoc(init, last);
      DistinctSnoc(init, last);
      IdsCount(init);
      if last.id in Ids(init) {
        assert Ids(words) == Ids(init);
      } else {
        assert |Ids(words)| == |Ids(init)| + 1;
      }
    }
  }

  lemma IdsSnoc(init: seq<Word>, last: Word)
    ensures Ids(init + [last]) == Ids(init) + {last.id}
  {
    var words := init + [last];
    forall id | id in Ids(words)
      ensures id in Ids(init) + {last.id}
    {
      var w :| w in words && w.id == id;
      if w != last {
        assert w in init;
      }
    }
  }

  /** Appending a word keeps the ids distinct exactly when its id is new. */
  lemma DistinctSnoc(init: seq<Word>, last: Word)
    ensures DistinctIds(init + [last]) <==> DistinctIds(init) && last.id !in Ids(init)
  {
    var words := init + [last];
    if last.id in Ids(init) {
      var w :| w in init && w.id == last.id;
      var i :| 0 <= i < |init| && init[i] == w;
      assert words[i].id == words[|words| - 1].id;
    } else if DistinctIds(init) {
      forall i, j | 0 <= i < j < |words|
        ensures words[i].id != words[j].id
      {
        if j == |words| - 1 {
          assert words[i] in init;
        } else {
          assert init[i] == words[i] && init[j] == words[j];
        }
      }
    } else {
      var i, j :| 0 <= i < j < |init| && init[i].id == init[j].id;
      assert words[i].id == words[j].id;
    }
  }

  lemma FreshProgressSize(words: seq<Word>, today: string)
    ensures |FreshProgress(words, today)| <= |words|
    ensures |FreshProgress(words, today)| == |words| <==> DistinctIds(words)
  {
    IdsCount(words);
    assert FreshProgress(words, today).Keys == Ids(words);
  }

  /** initProgressIfEmpty's result: the loaded map if its entry count matches the catalog, else a fresh one. */
  function InitProgress(loaded: Progress, catalog: seq<Word>, today: string): (p: Progress)
    ensures |loaded| == |catalog| ==> p == loaded
    ensures |loaded| != |catalog| ==> p == FreshProgress(catalog, today)
    ensures DistinctIds(catalog) ==> |p| == |catalog|
  {
    FreshProgressSize(catalog, today);
    if |loaded| != |catalog| then FreshProgress(catalog, today) else loaded
  }

  /** The slot after initProgressIfEmpty: rewritten only when the counts differ. */
  function InitSlot(slot: Slot, catalog: seq<Word>, today: string): (s: Slot)
    ensures Load(s) == InitProgress(Load(slot), catalog, today)
    ensures |Load(slot)| == |catalog| ==> s == slot
    ensures |Load(slot)| != |catalog| ==> s.Stored?
  {
    if |Load(slot)| != |catalog| then Stored(FreshProgress(catalog, today)) else slot
  }

  /** A count mismatch resets every catalog word to stage 0, due today, and saves that map. */
  lemma InitResets(slot: Slot, catalog: seq<Word>, today: string)
    requires |Load(slot)| != |catalog|
    ensures var p := InitProgress(Load(slot), catalog, today);
            && p.Keys == Ids(catalog)
            && (forall w :: w in catalog ==> w.id in p && p[w.id] == Record(w.id, 0, today))
            && InitSlot(slot, catalog, today) == Stored(p)
  {
  }

  /** A matching count keeps the loaded map and writes nothing, whichever ids it holds. */
  lemma InitKeeps(slot: Slot, catalog: seq<Word>, today: string)
    requires |Load(slot)| == |catalog|
    ensures InitProgress(Load(slot), catalog, today) == Load(slot)
    ensures InitSlot(slot, catalog, today) == slot
  {
  }

  /**
   * With distinct ids, initialising twice is initialising once: after the
   * first call the stored count matches the catalog, so the second call
   * (on any day) returns the same map and writes nothing.
   */
  lemma InitIdempotent(slot: Slot, catalog: seq<Word>, today: string, later: string)
    requires DistinctIds(catalog)
    ensures var s1 := InitSlot(slot, catalog, today);
            && |Load(s1)| == |catalog|
            && Load(s1) == InitProgress(Load(slot), catalog, today)
            && InitSlot(s1, catalog, later) == s1
            && InitProgress(Load(s1), catalog, later) == Load(s1)
  {
    FreshProgressSize(catalog, today);
  }

  /**
   * With a repeated id the fresh map is smaller than the catalog, so the
   * next initialisation resets everything again.
   */
  lemma RepeatedIdsResetAgain(slot: Slot, catalog: seq<Word>, today: string, later: string)
    requires !DistinctIds(catalog)
    ensures var s1 := InitSlot(slot, catalog, today);
            |Load(slot)| != |catalog| ==> InitSlot(s1, catalog, later) == Stored(FreshProgress(catalog, later))
  {
    FreshProgressSize(catalog, today);
  }

  // ---------------------------------------------------------------------
  // Due words
  // ---------------------------------------------------------------------

  /** `p?.nextReviewDate <= today`: a record exists and its date is not after today, as strings. */
  function IsDue(w: Word, p: Progress, today: string): (due: bool)
    ensures due ==> w.id in p
    ensures w.id in p && p[w.id].nextReviewDate == today ==> due
    ensures w.id in p && StrLess(today, p[w.id].nextReviewDate) ==> !due
  {
    w.id in p && StrLessEq(p[w.id].nextReviewDate, today)
  }

  /** The filter and map of getTodayReviewWords: due words, in catalog order, each with its record. */
  function DueWords(words: seq<Word>, p: Progress, today: string): (r: seq<DueWord>)
    ensures |r| <= |words|
    ensures forall e :: e in r ==> e.word in words && IsDue(e.word, p, today) && e.progress == p[e.word.id]
  {
    if words == [] then []
    else
      (if IsDue(words[0], p, today) then [DueWord(words[0], p[words[0].id])] else [])
      + DueWords(words[1..], p, today)
  }

  /** Every due catalog word is in the result. */
  lemma {:induction false} DueWordsComplete(words: seq<Word>, p: Progress, today: string, w: Word)
    requires w in words && IsDue(w, p, today)
    ensures DueWord(w, p[w.id]) in DueWords(words, p, today)
  {
    if words[0] != w {
      DueWordsComplete(words[1..], p, today, w);
    }
  }

  /** A catalog word is in the result exactly when it is due. */
  lemma DueWordsExactly(words: seq<Word>, p: Progress, today: string, w: Word)
    requires w in words
    ensures (exists e :: e in DueWords(words, p, today) && e.word == w) <==> IsDue(w, p, today)
  {
    if IsDue(w, p, today) {
      DueWordsComplete(words, p, today, w);
    }
  }

  /** The filter is stable: it distributes over concatenation, so catalog order is kept. */
  lemma {:induction false} DueWordsAppend(a: seq<Word>, b: seq<Word>, p: Progress, today: string)
    ensures DueWords(a + b, p, today) == DueWords(a, p, today) + DueWords(b, p, today)
  {
    if a == [] {
      assert a + b == b;
    } else {
      assert (a + b)[0] == a[0];
      assert (a + b)[1..] == a[1..] + b;
      DueWordsAppend(a[1..], b, p, today);
    }
  }

  /** A catalog word with no record is never due. */
  lemma MissingRecordNeverDue(words: seq<Word>, p: Progress, today: string, w: Word)
    requires w.id !in p
    ensures forall e :: e in DueWords(words, p, today) ==> e.word != w
  {
  }

  /**
   * With four-digit years, the string test agrees with the calendar: a word
   * whose record is due on day `d` is due today exactly when `d` is not after today.
   */
  lemma DueByCalendar(w: Word, p: Progress, d: Date, today: Date)
    requires ValidDate(d) && 1000 <= d.year <= 9999
    requires ValidDate(today) && 1000 <= today.year <= 9999
    requires w.id in p && p[w.id].nextReviewDate == FormatDate(d)
    ensures IsDue(w, p, FormatDate(today)) <==> !Before(today, d)
  {
    FormatOrder(d, today);
  }

  // ---------------------------------------------------------------------
  // Review outcome
  // ---------------------------------------------------------------------

  /**
   * The stage after one review: one step up when remembered, one step down
   * when forgotten, clamped to the ladder.
   */
  function NextStage(stage: int, remembered: bool): (s: int)
    ensures remembered ==> s <= LastStage
    ensures !remembered ==> s >= 0
    ensures 0 <= stage <= LastStage ==>
              && 0 <= s <= LastStage
              && (remembered ==> stage <= s <= stage + 1)
              && (!remembered ==> stage - 1 <= s <= stage)
              && (s == stage <==> (remembered && stage == LastStage) || (!remembered && stage == 0))
  {
    if remembered then Min(stage + 1, LastStage) else Max(stage - 1, 0)
  }

  /** The stage after `n` reviews with the same outcome. */
  function Repeat(stage: int, remembered: bool, n: nat): int
    decreases n
  {
    if n == 0 then stage else Repeat(NextStage(stage, remembered), remembered, n - 1)
  }

  /** Repeated "remembered" never passes the top stage; repeated "forgot" never goes below 0. */
  lemma {:induction false} RepeatedOutcomes(stage: int, n: nat)
    requires 0 <= stage <= LastStage
    ensures Repeat(stage, true, n) == Min(stage + n, LastStage)
    ensures Repeat(stage, false, n) == Max(stage - n, 0)
    decreases n
  {
    if n > 0 {
      RepeatedOutcomes(NextStage(stage, true), n - 1);
      RepeatedOutcomes(NextStage(stage, false), n - 1);
    }
  }

  /** The record a review starts from: the stored one, or stage 0 due today for an unknown id. */
  function CurrentRecord(p: Progress, wordId: Id, today: string): Record
  {
    if wordId in p then p[wordId] else Record(wordId, 0, today)
  }

  /** Writing one key adds that key and leaves every other entry as it was. */
  lemma Overwrite(p: Progress, k: Id, v: Record)
    ensures p[k := v].Keys == p.Keys + {k}
    ensures forall j :: j in p && j != k ==> p[k := v][j] == p[j]
  {
  }

  /** The stage a review of `wordId` moves to. */
  function StageAfter(p: Progress, wordId: Id, remembered: bool, today: string): int
  {
    NextStage(CurrentRecord(p, wordId, today).stageIndex, remembered)
  }

  /** The record written at stage `s`: due `Intervals[s]` days after `today`. */
  function ScheduledRecord(wordId: Id, s: int, today: Date): Record
    requires ValidDate(today) && 0 <= s <= LastStage
  {
    Record(wordId, s, FormatDate(AddDays(today, Intervals[s])))
  }

  /**
   * updateProgressAfterReview's new map, or None where the source throws.
   * The stage is clamped first and looked up afterwards, so only a stage that
   * is still off the ladder after the step makes `INTERVALS[stage]` undefined,
   * the date invalid, and `toISOString` raise before anything is saved.
   */
  function UpdatedProgress(p: Progress, wordId: Id, remembered: bool, today: Date): (r: Option<Progress>)
    requires ValidDate(today)
    ensures r.Some? <==> 0 <= StageAfter(p, wordId, remembered, FormatDate(today)) <= LastStage
    ensures r.Some? ==> r.value.Keys == p.Keys + {wordId}
    ensures r.Some? ==> r.value[wordId] == ScheduledRecord(wordId, StageAfter(p, wordId, remembered, FormatDate(today)), today)
    ensures r.Some? ==> forall k :: k in p && k != wordId ==> r.value[k] == p[k]
  {
    var s := StageAfter(p, wordId, remembered, FormatDate(today));
    if 0 <= s <= LastStage then
      var rec := ScheduledRecord(wordId, s, today);
      Overwrite(p, wordId, rec);
      Some(p[wordId := rec])
    else
      None
  }

  /** The outcome of one review, given the stage it moves to. */
  lemma ReviewOutcome(p: Progress, wordId: Id, remembered: bool, today: Date, stage: int)
    requires ValidDate(today)
    requires stage == StageAfter(p, wordId, remembered, FormatDate(today))
    ensures !(0 <= stage <= LastStage) ==> UpdatedProgress(p, wordId, remembered, today) == None
    ensures 0 <= stage <= LastStage ==>
              UpdatedProgress(p, wordId, remembered, today)
              == Some(p[wordId := ScheduledRecord(wordId, stage, today)])
  {
  }

  /**
   * A stored stage off the ladder fails only when the step leaves it off:
   * a stage below -1 reviewed "remembered", or above 7 reviewed "forgot".
   * Otherwise the clamp brings it back (a stored 9 reviewed "remembered" is
   * saved at stage 6, a stored -3 reviewed "forgot" at stage 0).
   */
  lemma StoredStageOffLadder(p: Progress, wordId: Id, remembered: bool, today: Date)
    requires ValidDate(today)
    ensures var stored := CurrentRecord(p, wordId, FormatDate(today)).stageIndex;
            UpdatedProgress(p, wordId, remembered, today).None?
            <==> (if remembered then stored < -1 else stored > LastStage + 1)
    ensures var stored := CurrentRecord(p, wordId, FormatDate(today)).stageIndex;
            var r := UpdatedProgress(p, wordId, remembered, today);
            && (remembered && stored >= LastStage ==> r.Some? && r.value[wordId].stageIndex == LastStage)
            && (!remembered && stored <= 0 ==> r.Some? && r.value[wordId].stageIndex == 0)
  {
  }

  /** The slot after updateProgressAfterReview: the new map, or the old slot if the source throws. */
  function AfterReview(slot: Slot, wordId: Id, remembered: bool, today: Date): (s: Slot)
    requires ValidDate(today)
    ensures UpdatedProgress(Load(slot), wordId, remembered, today).None? ==> s == slot
    ensures UpdatedProgress(Load(slot), wordId, remembered, today).Some? ==>
              s == Stored(UpdatedProgress(Load(slot), wordId, remembered, today).value)
  {
    match UpdatedProgress(Load(slot), wordId, remembered, today)
    case None => slot
    case Some(p) => Stored(p)
  }

  /** Every record is keyed by its own id and sits on the ladder. */
  predicate WellFormed(p: Progress)
  {
    forall id :: id in p ==> p[id].id == id && 0 <= p[id].stageIndex <= LastStage
  }

  /** Maps this program writes are well formed, and reviewing one never fails. */
  lemma UpdateKeepsWellFormed(p: Progress, wordId: Id, remembered: bool, today: Date)
    requires ValidDate(today) && WellFormed(p)
    ensures UpdatedProgress(p, wordId, remembered, today).Some?
    ensures WellFormed(UpdatedProgress(p, wordId, remembered, today).value)
  {
    var stage := StageAfter(p, wordId, remembered, FormatDate(today));
    ReviewOutcome(p, wordId, remembered, today, stage);
    var q := UpdatedProgress(p, wordId, remembered, today).value;
    forall id | id in q
      ensures q[id].id == id && 0 <= q[id].stageIndex <= LastStage
    {
      if id != wordId {
        assert q[id] == p[id];
      }
    }
  }

  lemma InitIsWellFormed(loaded: Progress, catalog: seq<Word>, today: string)
    requires WellFormed(loaded)
    ensures WellFormed(InitProgress(loaded, catalog, today))
  {
  }

  /** A known id keeps the store's size; the stage moves by at most one step. */
  lemma ReviewKnownWord(p: Progress, wordId: Id, remembered: bool, today: Date)
    requires ValidDate(today) && WellFormed(p) && wordId in p
    ensures var r := UpdatedProgress(p, wordId, remembered, today).value;
            && |r| == |p|
            && -1 <= r[wordId].stageIndex - p[wordId].stageIndex <= 1
  {
    var r := UpdatedProgress(p, wordId, remembered, today).value;
    assert r.Keys == p.Keys;
  }

  /**
   * An unknown id is reviewed from stage 0, due today, and the store gains
   * exactly one entry.
   */
  lemma ReviewUnknownWord(p: Progress, wordId: Id, remembered: bool, today: Date)
    requires ValidDate(today) && wordId !in p
    ensures UpdatedProgress(p, wordId, remembered, today).Some?
    ensures var r := UpdatedProgress(p, wordId, remembered, today).value;
            var s := if remembered then 1 else 0;
            && |r| == |p| + 1
            && r[wordId] == Record(wordId, s, FormatDate(AddDays(today, Intervals[s])))
  {
    var r := UpdatedProgress(p, wordId, remembered, today).value;
    assert r.Keys == p.Keys + {wordId};
  }

  /**
   * Reviewing an id the store lacks, when the store matched the catalog's
   * size, makes the next initialisation throw all progress away.
   */
  lemma UnknownWordForcesReset(slot: Slot, catalog: seq<Word>, wordId: Id, remembered: bool, today: Date, later: string)
    requires ValidDate(today) && |Load(slot)| == |catalog| && wordId !in Load(slot)
    ensures var s1 := AfterReview(slot, wordId, remembered, today);
            InitSlot(s1, catalog, later) == Stored(FreshProgress(catalog, later))
  {
    ReviewUnknownWord(Load(slot), wordId, remembered, today);
  }

  /** "Remembered" at stage 0 on 2024-01-10 is due again on 2024-01-11. */
  lemma RememberedFromStageZero(wordId: Id)
    ensures var today := Date(2024, 1, 10);
            var r := UpdatedProgress(map[], wordId, true, today);
            r.Some? && r.value[wordId] == Record(wordId, 1, FormatDate(Date(2024, 1, 11)))
  {
    var today := Date(2024, 1, 10);
    assert CurrentRecord(map[], wordId, FormatDate(today)).stageIndex == 0;
    ReviewOutcome(map[], wordId, true, today, 1);
    assert AddDays(today, Intervals[1]) == Date(2024, 1, 11);
  }

  /** "Forgot" at stage 3 drops to stage 2, due two days on (INTERVALS[2] is 2). */
  lemma ForgotFromStageThree(p: Progress, wordId: Id, today: Date)
    requires ValidDate(today) && wordId in p && p[wordId].stageIndex == 3
    ensures var r := UpdatedProgress(p, wordId, false, today);
            r.Some? && r.value[wordId] == Record(wordId, 2, FormatDate(AddDays(today, 2)))
  {
    var s := StageAfter(p, wordId, false, FormatDate(today));
    assert CurrentRecord(p, wordId, FormatDate(today)) == p[wordId];
    assert s == 2 && Intervals[s] == 2;
  }

  // ---------------------------------------------------------------------
  // The storage slot and the operations on it
  // ---------------------------------------------------------------------

  /** The storage slot under STORAGE_KEY, read and written as one whole value. */
  class ProgressStore {
    var slot: Slot

    constructor (initial: Slot)
      ensures slot == initial
    {
      slot := initial;
    }

    /** loadProgress */
    method LoadProgress() returns (p: Progress)
      ensures p == Load(slot)
      ensures !slot.Stored? ==> p == map[]
    {
      p := Load(slot);
    }

    /** saveProgress: replaces the whole stored value. */
    method SaveProgress(p: Progress)
      modifies this
      ensures slot == Stored(p) && Load(slot) == p
    {
      slot := Stored(p);
    }

    /** initProgressIfEmpty */
    method InitProgressIfEmpty(catalog: seq<Word>, today: Date) returns (p: Progress)
      requires ValidDate(today)
      modifies this
      ensures p == InitProgress(Load(old(slot)), catalog, FormatDate(today))
      ensures slot == InitSlot(old(slot), catalog, FormatDate(today))
      ensures Load(slot) == p
    {
      p := LoadProgress();
      if |p| != |catalog| {
        var t := FormatDate(today);
        var built := BuildFreshProgress(catalog, t);
        SaveProgress(built);
        p := built;
      }
    }

    /** getTodayReviewWords */
    method GetTodayReviewWords(catalog: seq<Word>, today: Date) returns (list: seq<DueWord>)
      requires ValidDate(today)
      modifies this
      ensures list == DueWords(catalog, InitProgress(Load(old(slot)), catalog, FormatDate(today)), FormatDate(today))
      ensures slot == InitSlot(old(slot), catalog, FormatDate(today))
    {
      var t := FormatDate(today);
      var progress := InitProgressIfEmpty(catalog, today);
      list := DueWords(catalog, progress, t);
    }

    /**
     * updateProgressAfterReview. `ok` is false where the source throws
     * (the stage after the step is still off the ladder); then nothing is saved.
     */
    method UpdateProgressAfterReview(wordId: Id, isCorrect: bool, today: Date) returns (ok: bool)
      requires ValidDate(today)
      modifies this
      ensures ok == UpdatedProgress(Load(old(slot)), wordId, isCorrect, today).Some?
      ensures slot == AfterReview(old(slot), wordId, isCorrect, today)
    {
      var progress := LoadProgress();
      var t := FormatDate(today);
      var p := if wordId in progress then progress[wordId] else Record(wordId, 0, t);
      var stage := p.stageIndex;
      if isCorrect {
        stage := Min(stage + 1, |Intervals| - 1);
      } else {
        stage := Max(stage - 1, 0);
      }
      assert p == CurrentRecord(progress, wordId, t);
      assert stage == NextStage(p.stageIndex, isCorrect);
      if !(0 <= stage < |Intervals|) {
        ReviewOutcome(progress, wordId, isCorrect, today, stage);
        return false;
      }
      var next := AddDaysStr(t, Intervals[stage]);
      AddDaysStrFormat(today, Intervals[stage]);
      ReviewOutcome(progress, wordId, isCorrect, today, stage);
      progress := progress[wordId := Record(wordId, stage, next.value)];
      SaveProgress(progress);
      ok := true;
    }
  }

  /**
   * Calling getTodayReviewWords twice on the same day with no review in
   * between gives the same list, given distinct ids.
   */
  lemma ReviewWordsTwice(slot: Slot, catalog: seq<Word>, today: Date)
    requires ValidDate(today) && DistinctIds(catalog)
    ensures var t := FormatDate(today);
            var s1 := InitSlot(slot, catalog, t);
            && |Load(s1)| == |catalog|
            && InitSlot(s1, catalog, t) == s1
            && DueWords(catalog, InitProgress(Load(s1), catalog, t), t)
               == DueWords(catalog, InitProgress(Load(slot), catalog, t), t)
  {
    InitIdempotent(slot, catalog, FormatDate(today), FormatDate(today));
  }
}
