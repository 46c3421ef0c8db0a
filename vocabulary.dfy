/** The vocabulary records of index.tsx and the pure meaning of the store's
    operations: adding a word with case-insensitive deduplication, setting a
    proficiency by exact term, and ingesting one extraction reply. The class
    in module Store performs these updates in place; the functions here are
    what its methods are proved against. */
module Vocabulary {
  import opened Wrappers
  import opened Text

  /** The learner's own rating of an entry; any value may follow any other. */
  datatype Proficiency = New | Learning | Mastered

  /** One object of the extraction model's JSON reply. */
  datatype Candidate = Candidate(term: string, language: string, meaning: string, usage: string)

  /** One stored entry. `addedDate` is a millisecond timestamp. */
  datatype VocabularyItem = VocabularyItem(
    term: string, meaning: string, usage: string, language: string,
    addedDate: int, proficiency: Proficiency)

  /** The deduplication key: the lower-cased term. The language is not part of it. */
  function Key(term: string): string {
    Lower(term)
  }

  /** The entry `addWordToVocabulary` builds: the candidate's fields, the
      current time, and proficiency `New`. */
  function NewItem(word: Candidate, now: int): VocabularyItem {
    VocabularyItem(word.term, word.meaning, word.usage, word.language, now, New)
  }

  /** Some entry's term equals `term` once both are lower-cased. */
  predicate HasKey(list: seq<VocabularyItem>, term: string) {
    exists i :: 0 <= i < |list| && Key(list[i].term) == Key(term)
  }

  /** No two entries share a lower-cased term. */
  ghost predicate KeysUnique(list: seq<VocabularyItem>) {
    forall i, j :: 0 <= i < j < |list| ==> Key(list[i].term) != Key(list[j].term)
  }

  // ----- addWordToVocabulary -----

  /** The list after `addWordToVocabulary(word)` at time `now`. */
  function WithWord(list: seq<VocabularyItem>, word: Candidate, now: int): seq<VocabularyItem> {
    if HasKey(list, word.term) then list else [NewItem(word, now)] + list
  }

  /** Adding keeps the keys unique, and afterwards the word's key is present. */
  lemma AddKeepsKeysUnique(list: seq<VocabularyItem>, word: Candidate, now: int)
    requires KeysUnique(list)
    ensures KeysUnique(WithWord(list, word, now))
    ensures HasKey(WithWord(list, word, now), word.term)
  {
    var r := WithWord(list, word, now);
    if !HasKey(list, word.term) {
      forall i, j | 0 <= i < j < |r| ensures Key(r[i].term) != Key(r[j].term) {
        if i == 0 {
          assert r[j] == list[j - 1];
        } else {
          assert r[i] == list[i - 1] && r[j] == list[j - 1];
        }
      }
      assert Key(r[0].term) == Key(word.term);
    }
  }

  // ----- updateProficiency -----

  /** The index of the first entry whose term equals `term` exactly (case-sensitive). */
  function FirstExact(list: seq<VocabularyItem>, term: string): (r: Option<nat>)
    ensures r.Some? ==> r.value < |list| && list[r.value].term == term
    ensures r.Some? ==> forall k :: 0 <= k < r.value ==> list[k].term != term
    ensures r.None? <==> forall k :: 0 <= k < |list| ==> list[k].term != term
  {
    if list == [] then None
    else if list[0].term == term then Some(0)
    else
      match FirstExact(list[1..], term)
      case None => None
      case Some(i) => Some(i + 1)
  }

  /** The list after `updateProficiency(term, p)`. */
  function WithProficiency(list: seq<VocabularyItem>, term: string, p: Proficiency): seq<VocabularyItem> {
    match FirstExact(list, term)
    case None => list
    case Some(i) => list[i := list[i].(proficiency := p)]
  }

  /** Only the first entry whose term matches exactly gets the new proficiency;
      every other entry, and every other field, is unchanged. A case variant of
      `term` is not a match. */
  lemma UpdateTouchesOnlyFirstExactMatch(list: seq<VocabularyItem>, term: string, p: Proficiency)
    ensures |WithProficiency(list, term, p)| == |list|
    ensures forall k :: 0 <= k < |list| ==>
      WithProficiency(list, term, p)[k] ==
        if list[k].term == term && forall j :: 0 <= j < k ==> list[j].term != term
        then list[k].(proficiency := p)
        else list[k]
  {
    var r := WithProficiency(list, term, p);
    match FirstExact(list, term)
    case None =>
    case Some(i) =>
      forall k | 0 <= k < |list|
        ensures r[k] == if list[k].term == term && forall j :: 0 <= j < k ==> list[j].term != term
                        then list[k].(proficiency := p) else list[k]
      {
        if k > i {
          assert list[i].term == term;
        }
      }
  }

  /** Setting a proficiency keeps every term, so it keeps the keys unique. */
  lemma UpdateKeepsKeysUnique(list: seq<VocabularyItem>, term: string, p: Proficiency)
    requires KeysUnique(list)
    ensures KeysUnique(WithProficiency(list, term, p))
  {
    var r := WithProficiency(list, term, p);
    assert forall k :: 0 <= k < |list| ==> r[k].term == list[k].term;
  }

  // ----- extractAndSaveVocabulary: the reverse forEach -----

  /** `s.reverse()`. */
  function Reversed<T>(s: seq<T>): seq<T> {
    seq(|s|, i requires 0 <= i < |s| => s[|s| - 1 - i])
  }

  /** The list after `addWordToVocabulary` is called on each word in turn,
      the k-th call at time `clock[k]`. */
  function AddAll(list: seq<VocabularyItem>, words: seq<Candidate>, clock: seq<int>): seq<VocabularyItem>
    requires |clock| == |words|
    decreases |words|
  {
    if words == [] then list
    else AddAll(WithWord(list, words[0], clock[0]), words[1..], clock[1..])
  }

  /** The list after one extraction reply is ingested: a non-empty reply is
      added back to front, so the reply's first term is added last. */
  function Ingest(list: seq<VocabularyItem>, results: seq<Candidate>, clock: seq<int>): seq<VocabularyItem>
    requires |clock| == |results|
  {
    if |results| > 0 then AddAll(list, Reversed(results), clock) else list
  }

  /** The run over the first `k + 1` words is the run over the first `k`
      words followed by one more WithWord. */
  lemma AddAllPrefixStep(list: seq<VocabularyItem>, words: seq<Candidate>, clock: seq<int>, k: nat)
    requires |clock| == |words| && k < |words|
    ensures AddAll(list, words[..k + 1], clock[..k + 1]) == WithWord(AddAll(list, words[..k], clock[..k]), words[k], clock[k])
  {
    assert words[..k + 1] == words[..k] + [words[k]];
    assert clock[..k + 1] == clock[..k] + [clock[k]];
    AddAllSnoc(list, words[..k], clock[..k], words[k], clock[k]);
  }

  /** Adding one more word at the end of a run is one more WithWord. */
  lemma {:induction false} AddAllSnoc(list: seq<VocabularyItem>, words: seq<Candidate>, clock: seq<int>, w: Candidate, t: int)
    requires |clock| == |words|
    ensures AddAll(list, words + [w], clock + [t]) == WithWord(AddAll(list, words, clock), w, t)
    decreases |words|
  {
    if words == [] {
      assert AddAll(list, [w], [t]) == AddAll(WithWord(list, w, t), [], []) by {
        assert [w][1..] == [] && [t][1..] == [];
      }
    } else {
      assert (words + [w])[1..] == words[1..] + [w];
      assert (clock + [t])[1..] == clock[1..] + [t];
      AddAllSnoc(WithWord(list, words[0], clock[0]), words[1..], clock[1..], w, t);
    }
  }

  /** A run of additions only puts entries in front of the old list. */
  lemma {:induction false} AddAllPrepends(list: seq<VocabularyItem>, words: seq<Candidate>, clock: seq<int>)
    requires |clock| == |words|
    ensures |AddAll(list, words, clock)| >= |list|
    ensures EndsWith(AddAll(list, words, clock), list)
    decreases |words|
  {
    if words != [] {
      var next := WithWord(list, words[0], clock[0]);
      assert EndsWith(next, list) by {
        assert next == list || next == [NewItem(words[0], clock[0])] + list;
        assert ([NewItem(words[0], clock[0])] + list)[1..] == list;
      }
      AddAllPrepends(next, words[1..], clock[1..]);
      EndsWithTransitive(AddAll(next, words[1..], clock[1..]), next, list);
    }
  }

  /** `r` ends with `list`. */
  predicate EndsWith(r: seq<VocabularyItem>, list: seq<VocabularyItem>) {
    |r| >= |list| && r[|r| - |list|..] == list
  }

  lemma EndsWithTransitive(a: seq<VocabularyItem>, b: seq<VocabularyItem>, c: seq<VocabularyItem>)
    requires EndsWith(a, b) && EndsWith(b, c)
    ensures EndsWith(a, c)
  {
    assert a[|a| - |c|..] == a[|a| - |b|..][|b| - |c|..];
  }

  /** After a run of additions every added word's key is present. */
  lemma {:induction false} AddAllCoversWords(list: seq<VocabularyItem>, words: seq<Candidate>, clock: seq<int>)
    requires |clock| == |words|
    ensures forall j :: 0 <= j < |words| ==> HasKey(AddAll(list, words, clock), words[j].term)
    decreases |words|
  {
    if words != [] {
      var next := WithWord(list, words[0], clock[0]);
      var r := AddAll(next, words[1..], clock[1..]);
      assert AddAll(list, words, clock) == r;
      assert HasKey(r, words[0].term) by {
        AddKeepsKey(list, words[0], clock[0]);
        AddAllPrepends(next, words[1..], clock[1..]);
        HasKeySurvivesPrefix(next, r, words[0].term);
      }
      assert forall j :: 1 <= j < |words| ==> HasKey(r, words[j].term) by {
        AddAllCoversWords(next, words[1..], clock[1..]);
        assert forall j :: 1 <= j < |words| ==> words[j] == words[1..][j - 1];
      }
    }
  }

  /** After adding a word, its key is present. */
  lemma AddKeepsKey(list: seq<VocabularyItem>, word: Candidate, now: int)
    ensures HasKey(WithWord(list, word, now), word.term)
  {
    if !HasKey(list, word.term) {
      assert Key(WithWord(list, word, now)[0].term) == Key(word.term);
    }
  }

  /** A key present in a list is present in any list that ends with it. */
  lemma HasKeySurvivesPrefix(list: seq<VocabularyItem>, r: seq<VocabularyItem>, term: string)
    requires EndsWith(r, list)
    requires HasKey(list, term)
    ensures HasKey(r, term)
  {
    var i :| 0 <= i < |list| && Key(list[i].term) == Key(term);
    assert r[|r| - |list| + i] == list[i];
  }

  /** A run of additions keeps the keys unique. */
  lemma {:induction false} AddAllKeepsKeysUnique(list: seq<VocabularyItem>, words: seq<Candidate>, clock: seq<int>)
    requires |clock| == |words|
    requires KeysUnique(list)
    ensures KeysUnique(AddAll(list, words, clock))
    decreases |words|
  {
    if words != [] {
      AddKeepsKeysUnique(list, words[0], clock[0]);
      AddAllKeepsKeysUnique(WithWord(list, words[0], clock[0]), words[1..], clock[1..]);
    }
  }

  /** Words whose keys are pairwise different and absent from the list are all
      added: the last one ends up at the head. */
  lemma {:induction false} AddAllFresh(list: seq<VocabularyItem>, words: seq<Candidate>, clock: seq<int>)
    requires |clock| == |words|
    requires forall j :: 0 <= j < |words| ==> !HasKey(list, words[j].term)
    requires forall i, j :: 0 <= i < j < |words| ==> Key(words[i].term) != Key(words[j].term)
    ensures |AddAll(list, words, clock)| == |list| + |words|
    ensures forall j :: 0 <= j < |words| ==>
      AddAll(list, words, clock)[j] == NewItem(words[|words| - 1 - j], clock[|words| - 1 - j])
    ensures AddAll(list, words, clock)[|words|..] == list
    decreases |words|
  {
    if words != [] {
      var m := |words|;
      var next := [NewItem(words[0], clock[0])] + list;
      assert !HasKey(list, words[0].term);
      assert WithWord(list, words[0], clock[0]) == next;
      FreshStaysFresh(list, words, clock);
      AddAllFresh(next, words[1..], clock[1..]);
      var r := AddAll(next, words[1..], clock[1..]);
      assert AddAll(list, words, clock) == r;
      ShiftPastHead(r, next, words, clock);
      assert next[1..] == list;
    }
  }

  /** AddAllFresh's recursive case: after the first word is added, the other
      words are still fresh and still pairwise different. */
  lemma FreshStaysFresh(list: seq<VocabularyItem>, words: seq<Candidate>, clock: seq<int>)
    requires |clock| == |words| > 0
    requires forall j :: 0 <= j < |words| ==> !HasKey(list, words[j].term)
    requires forall i, j :: 0 <= i < j < |words| ==> Key(words[i].term) != Key(words[j].term)
    ensures var next := [NewItem(words[0], clock[0])] + list;
      forall j :: 0 <= j < |words[1..]| ==> !HasKey(next, words[1..][j].term)
    ensures forall i, j :: 0 <= i < j < |words[1..]| ==> Key(words[1..][i].term) != Key(words[1..][j].term)
  {
    var next := [NewItem(words[0], clock[0])] + list;
    forall j | 0 <= j < |words| - 1 ensures !HasKey(next, words[1..][j].term) {
      assert words[1..][j] == words[j + 1];
      forall i | 0 <= i < |next| ensures Key(next[i].term) != Key(words[j + 1].term) {
        if i > 0 {
          assert next[i] == list[i - 1];
        }
      }
    }
    forall i, j | 0 <= i < j < |words| - 1 ensures Key(words[1..][i].term) != Key(words[1..][j].term) {
      assert words[1..][i] == words[i + 1] && words[1..][j] == words[j + 1];
    }
  }

  /** AddAllFresh's recursive case: the run over the other words, in front of
      the first word's new entry, holds every new entry in reverse order. */
  lemma ShiftPastHead(r: seq<VocabularyItem>, next: seq<VocabularyItem>, words: seq<Candidate>, clock: seq<int>)
    requires |clock| == |words| > 0 && next != [] && next[0] == NewItem(words[0], clock[0])
    requires |r| == |next| + |words[1..]|
    requires forall j :: 0 <= j < |words[1..]| ==>
      r[j] == NewItem(words[1..][|words[1..]| - 1 - j], clock[1..][|words[1..]| - 1 - j])
    requires r[|words[1..]|..] == next
    ensures forall j :: 0 <= j < |words| ==> r[j] == NewItem(words[|words| - 1 - j], clock[|words| - 1 - j])
    ensures r[|words|..] == next[1..]
  {
    var m := |words|;
    forall j | 0 <= j < m ensures r[j] == NewItem(words[m - 1 - j], clock[m - 1 - j]) {
      if j < m - 1 {
        assert words[1..][m - 2 - j] == words[m - 1 - j];
        assert clock[1..][m - 2 - j] == clock[m - 1 - j];
      } else {
        assert r[j] == r[m - 1..][0];
      }
    }
    assert r[m..] == r[m - 1..][1..];
  }

  /** Ingesting candidates with pairwise different keys, none of them stored
      yet, puts them at the head in the reply's own order, the reply's k-th
      candidate stamped by the clock of the (n-1-k)-th call; the old list
      follows unchanged. */
  lemma IngestKeepsReplyOrder(list: seq<VocabularyItem>, results: seq<Candidate>, clock: seq<int>)
    requires |clock| == |results|
    requires forall j :: 0 <= j < |results| ==> !HasKey(list, results[j].term)
    requires forall i, j :: 0 <= i < j < |results| ==> Key(results[i].term) != Key(results[j].term)
    ensures |Ingest(list, results, clock)| == |list| + |results|
    ensures forall j :: 0 <= j < |results| ==>
      Ingest(list, results, clock)[j] == NewItem(results[j], clock[|results| - 1 - j])
    ensures Ingest(list, results, clock)[|results|..] == list
  {
    var n := |results|;
    if n > 0 {
      var words := Reversed(results);
      assert forall j :: 0 <= j < n ==> words[j] == results[n - 1 - j];
      forall i, j | 0 <= i < j < n ensures Key(words[i].term) != Key(words[j].term) {
        assert words[i] == results[n - 1 - i] && words[j] == results[n - 1 - j];
      }
      AddAllFresh(list, words, clock);
    }
  }

  /** After any ingest, no two entries share a lower-cased term. */
  lemma IngestKeepsKeysUnique(list: seq<VocabularyItem>, results: seq<Candidate>, clock: seq<int>)
    requires |clock| == |results|
    requires KeysUnique(list)
    ensures KeysUnique(Ingest(list, results, clock))
  {
    if |results| > 0 {
      AddAllKeepsKeysUnique(list, Reversed(results), clock);
    }
  }

  /** A run of words whose keys are all stored already changes nothing. */
  lemma {:induction false} AddAllKnownIsNoOp(list: seq<VocabularyItem>, words: seq<Candidate>, clock: seq<int>)
    requires |clock| == |words|
    requires forall j :: 0 <= j < |words| ==> HasKey(list, words[j].term)
    ensures AddAll(list, words, clock) == list
    decreases |words|
  {
    if words != [] {
      assert forall j :: 0 <= j < |words| - 1 ==> words[1..][j] == words[j + 1];
      AddAllKnownIsNoOp(list, words[1..], clock[1..]);
    }
  }

  /** Ingesting the same reply a second time, at any later times, changes nothing. */
  lemma IngestIsIdempotent(list: seq<VocabularyItem>, results: seq<Candidate>, clock: seq<int>, later: seq<int>)
    requires |clock| == |results| && |later| == |results|
    ensures Ingest(Ingest(list, results, clock), results, later) == Ingest(list, results, clock)
  {
    var n := |results|;
    if n > 0 {
      var words := Reversed(results);
      AddAllCoversWords(list, words, clock);
      AddAllKnownIsNoOp(AddAll(list, words, clock), words, later);
    }
  }

  /** Two case variants of one new term in the same reply: the later-mentioned
      variant is added first, so it is the one that is kept. */
  lemma LaterCaseVariantWins(list: seq<VocabularyItem>, a: Candidate, b: Candidate, t0: int, t1: int)
    requires Key(a.term) == Key(b.term)
    requires !HasKey(list, a.term)
    ensures Ingest(list, [a, b], [t0, t1]) == [NewItem(b, t0)] + list
  {
    var words := Reversed([a, b]);
    assert words == [b, a];
    var next := [NewItem(b, t0)] + list;
    assert WithWord(list, b, t0) == next;
    assert HasKey(next, a.term) by {
      assert Key(next[0].term) == Key(a.term);
    }
    assert [b, a][1..] == [a] && [t0, t1][1..] == [t1];
    assert [a][1..] == [] && [t1][1..] == [];
    assert AddAll(list, [b, a], [t0, t1]) == AddAll(next, [a], [t1]);
    assert AddAll(next, [a], [t1]) == AddAll(next, [], []);
  }

}
