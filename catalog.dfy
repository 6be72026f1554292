/**
 * The word catalog of src/words: a fixed, ordered list of entries, each
 * identified by an id that is meant to be unique. The list itself is not
 * modelled; the scheduler, the quiz card and the session take it as a
 * parameter.
 */
module Catalog {
  import opened Wrappers

  /** A word's id, the key of its progress record. */
  type Id = int

  /** A catalog entry. */
  datatype Word = Word(id: Id, word: string, phonetic: Option<string>, pos: Option<string>, meaningZh: string)

  /** The set of ids a list of words uses. */
  function Ids(words: seq<Word>): set<Id>
  {
    set w | w in words :: w.id
  }

  /** No id occurs twice. */
  predicate DistinctIds(words: seq<Word>)
  {
    forall i, j :: 0 <= i < j < |words| ==> words[i].id != words[j].id
  }
}
