/** The in-memory vocabulary list of index.tsx and the operations that change
    it in place. `saved` is what this session last wrote to the
    `vocabularyList` slot of durable storage: each method writes it exactly
    where the source calls `saveVocabulary`. */
module Store {
  import opened Wrappers
  import opened Vocabulary

  class VocabularyStore {
    /** The entries, newest first. */
    var items: seq<VocabularyItem>
    /** What the last save wrote to durable storage. */
    var saved: seq<VocabularyItem>

    /** A fresh session with nothing stored yet. */
    constructor ()
      ensures items == [] && saved == []
      ensures KeysUnique(items)
    {
      items := [];
      saved := [];
    }

    /** `addWordToVocabulary`: a word whose lower-cased term is already stored
        leaves everything as it was; any other word becomes the new head entry,
        with proficiency `New` and timestamp `now`, and the list is saved. */
    method AddWord(word: Candidate, now: int)
      modifies this
      ensures items == WithWord(old(items), word, now)
      ensures HasKey(old(items), word.term) ==> items == old(items) && saved == old(saved)
      ensures !HasKey(old(items), word.term) ==>
        && |items| == |old(items)| + 1
        && items[0] == NewItem(word, now) && items[0].proficiency == New && items[0].addedDate == now
        && items[1..] == old(items)
        && saved == items
      ensures KeysUnique(old(items)) ==> KeysUnique(items)
    {
      if exists i | 0 <= i < |items| :: Key(items[i].term) == Key(word.term) {
        return;
      }
      if KeysUnique(items) {
        AddKeepsKeysUnique(items, word, now);
      }
      items := [NewItem(word, now)] + items;
      saved := items;
    }

    /** `updateProficiency`: the first entry whose term is exactly `term` gets
        proficiency `p` and the list is saved; when no term matches exactly,
        nothing changes and nothing is saved. */
    method UpdateProficiency(term: string, p: Proficiency)
      modifies this
      ensures items == WithProficiency(old(items), term, p)
      ensures saved == if FirstExact(old(items), term).Some? then items else old(saved)
      ensures KeysUnique(old(items)) ==> KeysUnique(items)
    {
      if KeysUnique(items) {
        UpdateKeepsKeysUnique(items, term, p);
      }
      match FirstExact(items, term)
      case None =>
      case Some(i) =>
        items := items[i := items[i].(proficiency := p)];
        saved := items;
    }

    /** The ingest step of `extractAndSaveVocabulary`: a non-empty reply is
        reversed and each candidate goes through AddWord, the k-th call at time
        `clock[k]`. The list is saved whenever an entry was added. */
    method IngestResults(results: seq<Candidate>, clock: seq<int>)
      requires |clock| == |results|
      modifies this
      ensures items == Ingest(old(items), results, clock)
      ensures saved == if |items| > |old(items)| then items else old(saved)
      ensures KeysUnique(old(items)) ==> KeysUnique(items)
    {
      if |results| > 0 {
        var words := Reversed(results);
        var k := 0;
        while k < |words|
          invariant 0 <= k <= |words|
          invariant items == AddAll(old(items), words[..k], clock[..k])
          invariant |items| >= |old(items)|
          invariant saved == if |items| > |old(items)| then items else old(saved)
          invariant KeysUnique(old(items)) ==> KeysUnique(items)
        {
          AddAllPrefixStep(old(items), words, clock, k);
          ghost var before := items;
          AddWord(words[k], clock[k]);
          assert |items| == |before| || saved == items;
          k := k + 1;
        }
        assert words[..k] == words && clock[..k] == clock;
      }
    }
  }

}
