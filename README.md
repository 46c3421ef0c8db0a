# Vocabulary pipeline of the language-tutor app, in Dafny

The app is a chat tutor. Every three chat messages the learner sends are joined
into one batch. A hosted model extracts vocabulary candidates from each batch.
New candidates are stored, newest first, and deduplicated case-insensitively by
term. The vocabulary panel then filters, counts and sorts the stored entries, and
offers their distinct languages as filter options. This project models that pipeline from `index.tsx` and
proves what it promises.

Modules, in dependency order:

- `Wrappers` holds `Option`.
- `Text` holds the JavaScript string operations the pipeline uses:
  - `trim`, with the ECMAScript white-space and line-terminator set;
  - `toLowerCase`, modelled as ASCII lowering;
  - `includes`;
  - `split(' ')` and `join`;
  - `length`, counted in UTF-16 code units.
- `Vocabulary` holds the records and the pure meaning of the store's operations:
  - `WithWord` for `addWordToVocabulary`;
  - `WithProficiency` for `updateProficiency`;
  - `AddAll` and `Ingest` for the reverse `forEach` of `extractAndSaveVocabulary`;
  - the lemmas about them.
- `Store` holds the class `VocabularyStore`. It updates `items` (the global
  `vocabularyList`) in place, and each method is proved against the functions
  of `Vocabulary`. The field `saved` is what this session last wrote to durable
  storage. It is written exactly where the source calls `saveVocabulary`.
- `Batching` holds the class `Batcher` (`userMessageBuffer` and the batching
  part of `handleFormSubmit`), the step function it is proved against, and a
  characterisation of whole runs of submissions.
- `Extraction` holds the length guard of `extractAndSaveVocabulary` and the
  method that runs the guard and the ingest.
- `Languages` models `populateLanguageFilter`.
- `Query` holds the computing part of `renderVocabularyList`: the filter, the
  "added today" count and the comparator sort.

Each `Date.now()` becomes one element of a `clock` sequence, one timestamp per
`addWordToVocabulary` call, in call order. The local midnight
`new Date().setHours(0,0,0,0)` becomes the parameter `midnight`. The model's
JSON reply becomes an `Option<seq<Candidate>>` parameter, where `None` stands
for a failed call or a reply that does not parse. The source swallows both.

The length guard at `index.tsx:322` splits the trimmed message on the plain
space `' '` only, so tabs and line breaks do not separate words. The model
follows the code on this point.

A consequence proved in `Extraction.GuardNeverSkipsABatch`: every batch the
batcher emits is three non-empty messages and two separators, at least 13 code
units long. The guard therefore never skips a batch produced by the chat form.

## Model

| member | source | states |
|---|---|---|
| Text.Trim | index.tsx:182 | `trim()`: the result is a slice of the input with only white space before and after it, neither end of the result is white space, and it is empty exactly when the input is all white space |
| Text.Includes | index.tsx:438 | `includes(t)` holds exactly when `t` occurs in `s` at some position |
| Text.Split | index.tsx:322 | `split(' ')` gives one more piece than there are separators; no piece contains the separator, and joining the pieces with it gives back the input |
| Text.Utf16Length | index.tsx:322 | `length` counts code units: between one and two per character |
| Vocabulary.AddKeepsKeysUnique | index.tsx:374-381 | adding a word keeps lower-cased terms unique, and afterwards the word's lower-cased term is stored |
| Vocabulary.FirstExact | index.tsx:392 | `find(i => i.term === term)`: the index of the first entry whose term is exactly `term`, and none when no term is exactly equal |
| Vocabulary.UpdateTouchesOnlyFirstExactMatch | index.tsx:391-398 | only the first exactly matching entry gets the new proficiency; every other entry and field is unchanged; a case variant is no match |
| Vocabulary.UpdateKeepsKeysUnique | index.tsx:391-398 | setting a proficiency keeps lower-cased terms unique |
| Vocabulary.AddAllPrepends | index.tsx:353-355 | a run of additions only puts entries in front of the old list |
| Vocabulary.AddAllCoversWords | index.tsx:353-355 | after a run of additions, every added word's lower-cased term is stored |
| Vocabulary.AddAllKeepsKeysUnique | index.tsx:353-355 | a run of additions keeps lower-cased terms unique |
| Vocabulary.AddAllFresh | index.tsx:353-355 | words with distinct keys that are not yet stored are all added; the last one ends up at the head |
| Vocabulary.AddAllSnoc | index.tsx:353-355 | one more call at the end of a run is one more single addition |
| Vocabulary.IngestKeepsReplyOrder | index.tsx:351-355 | distinct, new candidates end up at the head in the reply's own order, and the old list follows unchanged |
| Vocabulary.IngestKeepsKeysUnique | index.tsx:351-355 | after any ingest, no two entries share a lower-cased term |
| Vocabulary.AddAllKnownIsNoOp | index.tsx:375 | words whose terms are all stored already change nothing |
| Vocabulary.IngestIsIdempotent | index.tsx:351-355 | ingesting the same reply again, at any later times, changes nothing |
| Vocabulary.LaterCaseVariantWins | index.tsx:351-355 | of two case variants of a new term in one reply, the later-mentioned one is kept, stamped by the first call |
| Store.VocabularyStore.constructor | index.tsx:132 | a session starts with an empty list and nothing saved |
| Store.VocabularyStore.AddWord | index.tsx:374-389 | a word whose lower-cased term is stored changes nothing and saves nothing; otherwise the list grows by one: the new head has proficiency `New` and the given time, the old entries follow unchanged, and the list is saved; unique keys are preserved |
| Store.VocabularyStore.UpdateProficiency | index.tsx:391-398 | the list becomes `WithProficiency` of the old one; it is saved only when an exact match existed; unique keys are preserved |
| Store.VocabularyStore.IngestResults | index.tsx:351-355 | the loop of `AddWord` calls over the reversed reply yields `Ingest` of the old list; the list is saved iff it grew; unique keys are preserved |
| Batching.Batcher.constructor | index.tsx:133 | the buffer starts empty |
| Batching.Batcher.Submit | index.tsx:180-193 | a blank message changes nothing; otherwise the trimmed message is buffered, and the third one flushes: the batch is the buffered messages in arrival order joined by `"\n---\n"` and the buffer is emptied; the buffer stays below three and holds no empty message |
| Batching.PushKeepsBufferSmall | index.tsx:187-193 | from a buffer below three messages, any submission leaves it below three |
| Batching.ThirdMessageFlushes | index.tsx:187-193 | after a flush, two non-blank submissions emit nothing and the third emits the three trimmed messages joined by the separator, emptying the buffer |
| Batching.JoinThree | index.tsx:189 | joining three messages puts the separator between the first and second and between the second and third |
| Batching.Accepted | index.tsx:182-183 | the messages that reach the buffer are no more than those submitted, and none is empty |
| Batching.Leftover | index.tsx:188-191 | what stays buffered after the last complete group is fewer than three messages |
| Batching.FeedCutsIntoTriples | index.tsx:180-193 | any run of submissions cuts the accepted messages, after the old buffer, into consecutive groups of three in arrival order, one batch per group; the rest stays buffered |
| Extraction.IsTooShort | index.tsx:322-324 | the guard skips a message exactly when its trimmed form has no plain space and the untrimmed message is shorter than ten code units |
| Extraction.ExtractAndSave | index.tsx:320-361 | the model is called exactly when the guard does not skip; a parsed reply is ingested, and a failure leaves the list as it was; the list is saved exactly when it grew, otherwise durable storage is untouched; unique keys are preserved |
| Extraction.BatchesAreLongEnough | index.tsx:188-191 | no group of three non-empty messages joined by the separator is skipped by the guard |
| Extraction.BatchOfThreeIsLong | index.tsx:189 | three non-empty messages joined by the separator pass the guard |
| Extraction.GuardNeverSkipsABatch | index.tsx:180-193 | whatever the user submits, the guard never skips a batch that the batcher emits |
| Languages.BelowIrreflexive | index.tsx:410 | the default sort order never puts a string before itself |
| Languages.BelowTransitive | index.tsx:410 | the default sort order is transitive |
| Languages.BelowTotal | index.tsx:410 | any two different strings are ordered one way or the other |
| Languages.InsertLanguage | index.tsx:407-410 | inserting a language into a strictly sorted list keeps it strictly sorted, adds that language and nothing else |
| Languages.SortedLanguages | index.tsx:407-410 | `[...new Set(languages)].sort()` is strictly sorted and holds exactly the stored languages |
| Languages.SortedDistinctIsUnique | index.tsx:407-410 | two strictly sorted lists with the same members are equal, so the option list does not depend on the order in which languages were found |
| Languages.HeadIsLeast | index.tsx:410 | the head of a strictly sorted list comes before every other member |
| Languages.PopulateLanguageFilter | index.tsx:406-422 | the options are exactly the stored languages, sorted and without duplicates; the selection is kept if its language is still stored, otherwise it falls back to `"all"` |
| Query.Filtered | index.tsx:432-452 | the filtered list is an order-preserving subsequence of the store; every kept entry passes the language, word/phrase and search tests, and every entry that passes is kept, as often as it is stored |
| Query.CountAddedSince | index.tsx:455-456 | the "added today" count is the number of entries stamped at or after midnight, and it is at most the total |
| Query.MidnightBoundary | index.tsx:456 | an entry stamped exactly at midnight counts as added today; one stamped a millisecond earlier does not |
| Query.Insert | index.tsx:460-470 | inserting into a list in comparator order keeps it in order and adds exactly that entry |
| Query.WithSortKeyConcat | index.tsx:460-470 | the entries with a given key in a concatenation are those of the first part followed by those of the second |
| Query.WithSortKeyOne | index.tsx:460-470 | a single entry is kept by the key filter exactly when its key matches |
| Query.InsertIsStable | index.tsx:460-470 | insertion puts the new entry ahead of the entries with its key and keeps every key's entries in order |
| Query.SortedView | index.tsx:460-470 | the sorted list is in comparator order and is a permutation of the filtered list |
| Query.SortIsStable | index.tsx:460-470 | the sort is stable: for every key, the entries with that key keep their filtered order |
| Query.ProficiencyViewIsRanked | index.tsx:463-466 | sorting by proficiency gives non-decreasing rank (new, learning, mastered) and keeps the filtered order within a rank |
| Query.DefaultViewIsNewestFirst | index.tsx:468-469 | the default sort gives non-increasing timestamps |
| Query.Render | index.tsx:424-470 | the panel shows the total, the number added since midnight, and exactly the entries that pass the filter, in comparator order and stable |

## Left out

- DOM work is not modelled: chat and dictionary rendering, modal open and close, event listeners, the HTML built in `renderVocabularyList`. It is presentation only.
- The view refresh that `addWordToVocabulary` and `updateProficiency` trigger (`populateLanguageFilter`, `renderVocabularyList`) is not modelled as a call. Both are modelled as functions of the stored list and the control values (`Languages.PopulateLanguageFilter`, `Query.Render`). The control values are the selected language, the filter controls, the sort order and the local midnight, passed as `current`, `f`, `order` and `midnight`. The functions have no other effect on the model's state.
- The hosted-model calls, the prompt texts and `JSON.parse` are foreign calls. The parsed reply is a parameter, and `None` stands for a failed call or a reply that `JSON.parse` rejects.
- Loading the vocabulary from `localStorage` at start-up is I/O and is not modelled. `Store.VocabularyStore.constructor` starts from an empty list with nothing saved, which is a first run. After a later start-up, the list would begin with the previous session's entries. Writes to storage are modelled only as the `saved` snapshot.
- The 1500 ms `setTimeout` before extraction is not modelled, nor can concurrent extractions interleave. An emitted batch is the value `Batcher.Submit` returns, and each extraction runs to completion as one `ExtractAndSave` call.
- `Date.now()` and the local midnight are not computed. They are parameters: `clock` and `midnight`.
- The `'alphabetical'` sort is not modelled. It uses `localeCompare`, whose locale-dependent collation is not visible here.
- The `'429'` error messages, `practiceWord`, the clipboard and `sendChatMessage` are not modelled. They are user-facing glue.
- Text.Lower: lower-cases ASCII letters only, not the full Unicode case mapping of `toLowerCase`, so terms that differ only in non-ASCII case count as different keys.
- Languages.Below: compares code points, whereas JavaScript's default sort compares UTF-16 code units. The two orders differ only between a supplementary-plane character and one in U+E000 to U+FFFF.
- Store.VocabularyStore: items are values, so `updateProficiency`'s mutation through a shared object reference is modelled as replacing the entry at its index. The list handlers of `renderVocabularyList` (`index.tsx:486`, `index.tsx:507-508`) also capture the item object, but they only read `item.term`, which no operation changes.
- Extraction.ExtractAndSave: an ingest is all or nothing. In the source the `forEach` over the reply runs inside the `try` (`index.tsx:328-360`), so an exception part-way through it ends the loop with the earlier candidates already added and saved. Such an exception would come from `localStorage.setItem` exceeding its quota (`index.tsx:364`) or from a reply element whose `term` is not a string (`index.tsx:375`). Storage quotas and malformed reply elements are not modelled: every reply element is a well-formed `Candidate` and every save succeeds.
