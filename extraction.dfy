/** `extractAndSaveVocabulary` (index.tsx): the length guard in front of the
    extraction call, and the ingest of its reply into the store. The hosted
    model is not modelled: its reply is a parameter, `None` standing for a
    failed call or a reply that does not parse, both of which the source
    swallows. */
module Extraction {
  import opened Wrappers
  import opened Text
  import opened Vocabulary
  import opened Store
  import opened Batching

  /** The guard that skips very short input: the trimmed message splits on
      `' '` into fewer than two pieces and the untrimmed message is shorter
      than ten UTF-16 code units. Only the plain space separates pieces; tabs
      and line breaks do not. */
  function IsTooShort(message: string): (skip: bool)
    ensures skip <==> ' ' !in Trim(message) && Utf16Length(message) < 10
  {
    var pieces := Split(Trim(message), ' ');
    assert ' ' in Trim(message) <==> multiset(Trim(message))[' '] > 0;
    |pieces| < 2 && Utf16Length(message) < 10
  }

  /** One extraction for `message`. `requested` tells whether the model is
      called at all; when it is and its reply parses, the reply is ingested,
      otherwise the store is left as it was. */
  method ExtractAndSave(store: VocabularyStore, message: string, reply: Option<seq<Candidate>>, clock: seq<int>)
    returns (requested: bool)
    requires reply.Some? ==> |clock| == |reply.value|
    modifies store
    ensures requested <==> !IsTooShort(message)
    ensures store.items ==
      if requested && reply.Some? then Ingest(old(store.items), reply.value, clock) else old(store.items)
    ensures store.saved == if |store.items| > |old(store.items)| then store.items else old(store.saved)
    ensures KeysUnique(old(store.items)) ==> KeysUnique(store.items)
  {
    if IsTooShort(message) {
      return false;
    }
    requested := true;
    match reply
    case None =>
    case Some(results) =>
      store.IngestResults(results, clock);
  }

  /** Every batch is three non-empty messages and two separators, so it is at
      least 13 code units long and the guard never skips it. */
  lemma {:induction false} BatchesAreLongEnough(msgs: seq<string>)
    requires AllFilled(msgs)
    ensures forall b :: b in Batches(msgs) ==> !IsTooShort(b)
    decreases |msgs|
  {
    if |msgs| >= Threshold {
      var first := Join(msgs[..Threshold], Separator);
      var later := Batches(msgs[Threshold..]);
      assert Batches(msgs) == [first] + later;
      assert !IsTooShort(first) by {
        assert msgs[..Threshold] == [msgs[0], msgs[1], msgs[2]];
        BatchOfThreeIsLong(msgs[0], msgs[1], msgs[2]);
      }
      AllFilledDrop(msgs);
      BatchesAreLongEnough(msgs[Threshold..]);
    }
  }

  lemma AllFilledDrop(msgs: seq<string>)
    requires AllFilled(msgs) && |msgs| >= Threshold
    ensures AllFilled(msgs[Threshold..])
  {
    assert forall k :: 0 <= k < |msgs| - Threshold ==> msgs[Threshold..][k] == msgs[k + Threshold];
  }

  lemma BatchOfThreeIsLong(x: string, y: string, z: string)
    requires x != [] && y != [] && z != []
    ensures !IsTooShort(Join([x, y, z], Separator))
  {
    JoinThree(x, y, z);
    assert |x + Separator + y + Separator + z| >= 13;
  }

  /** Whatever the user submits, the length guard never skips a batch the
      batcher emits: it only ever sees messages of at least 13 code units. */
  lemma GuardNeverSkipsABatch(inputs: seq<string>)
    ensures forall b :: b in Feed([], inputs).batches ==> !IsTooShort(b)
  {
    FeedCutsIntoTriples([], inputs);
    assert [] + Accepted(inputs) == Accepted(inputs);
    BatchesAreLongEnough(Accepted(inputs));
  }

}
