/** The computing part of `renderVocabularyList` (index.tsx): the filter
    over language, word-or-phrase and search text, the "added today" count,
    and the stable sort of the filtered entries. */
module Query {
  import opened Text
  import opened Vocabulary
  import opened Languages

  /** The word/phrase radio buttons; `AnyKind` also stands for "none checked". */
  datatype TermKind = AnyKind | WordsOnly | PhrasesOnly

  /** The filter controls: the selected language (or AllLanguages), the kind,
      and the search box exactly as typed. */
  datatype ViewFilter = ViewFilter(language: string, kind: TermKind, search: string)

  /** The sort selector. `NewestFirst` is the default branch of the comparator. */
  datatype SortOrder = NewestFirst | ByProficiency

  /** The fixed order of the proficiency sort. */
  function Rank(p: Proficiency): nat {
    match p
    case New => 0
    case Learning => 1
    case Mastered => 2
  }

  /** An entry is a phrase when its trimmed term holds a plain space. */
  predicate IsPhrase(item: VocabularyItem) {
    ' ' in Trim(item.term)
  }

  /** The search text as the filter uses it: lower-cased, then trimmed. */
  function SearchKey(search: string): string {
    Trim(Lower(search))
  }

  /** The filter predicate of `renderVocabularyList`. */
  predicate Matches(item: VocabularyItem, f: ViewFilter) {
    && (f.language == AllLanguages || item.language == f.language)
    && (f.kind == WordsOnly ==> !IsPhrase(item))
    && (f.kind == PhrasesOnly ==> IsPhrase(item))
    && (var q := SearchKey(f.search);
        q == [] || Includes(Lower(item.term), q) || Includes(Lower(item.meaning), q))
  }

  /** `a` is `b` with some elements left out, the rest in their order. */
  ghost predicate IsSubsequence(a: seq<VocabularyItem>, b: seq<VocabularyItem>)
    decreases |b|
  {
    if a == [] then true
    else if b == [] then false
    else (a[0] == b[0] && IsSubsequence(a[1..], b[1..])) || IsSubsequence(a, b[1..])
  }

  /** `vocabularyList.filter(...)`: the entries that pass the filter, in store
      order. Every kept entry passes; every entry that passes is kept, as often
      as it occurs in the store. */
  function Filtered(list: seq<VocabularyItem>, f: ViewFilter): (r: seq<VocabularyItem>)
    ensures IsSubsequence(r, list)
    ensures forall i :: 0 <= i < |r| ==> Matches(r[i], f)
    ensures forall x :: multiset(r)[x] == if Matches(x, f) then multiset(list)[x] else 0
    decreases |list|
  {
    if list == [] then []
    else
      var rest := Filtered(list[1..], f);
      FilterStep(list, f, rest);
      if Matches(list[0], f) then [list[0]] + rest else rest
  }

  /** Filtered's step: the head is kept in front of the filtered tail exactly
      when it passes. */
  lemma FilterStep(list: seq<VocabularyItem>, f: ViewFilter, rest: seq<VocabularyItem>)
    requires list != []
    requires IsSubsequence(rest, list[1..])
    requires forall i :: 0 <= i < |rest| ==> Matches(rest[i], f)
    requires forall x :: multiset(rest)[x] == if Matches(x, f) then multiset(list[1..])[x] else 0
    ensures var r := if Matches(list[0], f) then [list[0]] + rest else rest;
      && IsSubsequence(r, list)
      && (forall i :: 0 <= i < |r| ==> Matches(r[i], f))
      && (forall x :: multiset(r)[x] == if Matches(x, f) then multiset(list)[x] else 0)
  {
    assert list == [list[0]] + list[1..];
    if Matches(list[0], f) {
      var r := [list[0]] + rest;
      assert r[1..] == rest;
      forall i | 0 <= i < |r| ensures Matches(r[i], f) {
        if i > 0 {
          assert r[i] == rest[i - 1];
        }
      }
    }
  }

  /** The "added today" count: entries stamped at or after `midnight`, the
      start of the current local day. */
  function CountAddedSince(list: seq<VocabularyItem>, midnight: int): (n: nat)
    ensures n == |AddedSince(list, midnight)|
    ensures n <= |list|
    decreases |list|
  {
    if list == [] then
      assert AddedSince(list, midnight) == {};
      0
    else
      var init := list[..|list| - 1];
      AddedSinceSnoc(list, midnight);
      CountAddedSince(init, midnight) + (if list[|list| - 1].addedDate >= midnight then 1 else 0)
  }

  /** The positions of the entries stamped at or after `midnight`. */
  ghost function AddedSince(list: seq<VocabularyItem>, midnight: int): set<int> {
    set i | 0 <= i < |list| && list[i].addedDate >= midnight
  }

  lemma AddedSinceSnoc(list: seq<VocabularyItem>, midnight: int)
    requires list != []
    ensures var last := |list| - 1;
      |AddedSince(list, midnight)| ==
        |AddedSince(list[..last], midnight)| + (if list[last].addedDate >= midnight then 1 else 0)
  {
    var last := |list| - 1;
    var before := AddedSince(list[..last], midnight);
    assert AddedSince(list, midnight) == before + (if list[last].addedDate >= midnight then {last} else {});
    assert last !in before;
  }

  /** An entry stamped exactly at midnight counts as added today; one stamped a
      millisecond earlier does not. */
  lemma MidnightBoundary(item: VocabularyItem, midnight: int)
    ensures CountAddedSince([item.(addedDate := midnight)], midnight) == 1
    ensures CountAddedSince([item.(addedDate := midnight - 1)], midnight) == 0
  {
    assert AddedSince([item.(addedDate := midnight)], midnight) == {0};
    assert AddedSince([item.(addedDate := midnight - 1)], midnight) == {};
  }

  // ----- the comparator sort -----

  /** What the comparator compares, smaller first: the proficiency rank, or
      the negated timestamp so that newer entries come first. */
  function SortKey(order: SortOrder, item: VocabularyItem): int {
    match order
    case NewestFirst => -item.addedDate
    case ByProficiency => Rank(item.proficiency)
  }

  ghost predicate InOrder(s: seq<VocabularyItem>, order: SortOrder) {
    forall i, j :: 0 <= i < j < |s| ==> SortKey(order, s[i]) <= SortKey(order, s[j])
  }

  /** The entries of `s` whose sort key is `k`, in their order in `s`. */
  function WithSortKey(s: seq<VocabularyItem>, order: SortOrder, k: int): seq<VocabularyItem>
    decreases |s|
  {
    if s == [] then []
    else (if SortKey(order, s[0]) == k then [s[0]] else []) + WithSortKey(s[1..], order, k)
  }

  /** Insert `x` in front of the first entry whose key is not smaller. */
  function Insert(x: VocabularyItem, s: seq<VocabularyItem>, order: SortOrder): (r: seq<VocabularyItem>)
    requires InOrder(s, order)
    ensures InOrder(r, order)
    ensures multiset(r) == multiset(s) + multiset{x}
    decreases |s|
  {
    if s == [] then [x]
    else if SortKey(order, x) <= SortKey(order, s[0]) then
      assert InOrder([x] + s, order) by {
        assert forall j :: 0 <= j < |s| ==> SortKey(order, s[0]) <= SortKey(order, s[j]);
      }
      [x] + s
    else
      var rest := Insert(x, s[1..], order);
      assert s == [s[0]] + s[1..];
      assert InOrder([s[0]] + rest, order) by {
        HeadBelowInsert(x, s, rest, order);
      }
      [s[0]] + rest
  }

  /** When `x` goes after the head of `s`, the head stays below everything. */
  lemma HeadBelowInsert(x: VocabularyItem, s: seq<VocabularyItem>, rest: seq<VocabularyItem>, order: SortOrder)
    requires InOrder(s, order) && s != [] && SortKey(order, s[0]) < SortKey(order, x)
    requires InOrder(rest, order) && multiset(rest) == multiset(s[1..]) + multiset{x}
    ensures InOrder([s[0]] + rest, order)
  {
    assert forall j :: 0 <= j < |rest| ==> SortKey(order, s[0]) <= SortKey(order, rest[j]) by {
      forall j | 0 <= j < |rest| ensures SortKey(order, s[0]) <= SortKey(order, rest[j]) {
        assert rest[j] in multiset(rest);
        if rest[j] != x {
          assert rest[j] in multiset(s[1..]);
          var m :| 0 <= m < |s[1..]| && s[1..][m] == rest[j];
          assert s[m + 1] == rest[j];
        }
      }
    }
    var r := [s[0]] + rest;
    forall i, j | 0 <= i < j < |r| ensures SortKey(order, r[i]) <= SortKey(order, r[j]) {
      assert r[j] == rest[j - 1];
      if i > 0 {
        assert r[i] == rest[i - 1];
      }
    }
  }

  lemma {:induction false} WithSortKeyConcat(a: seq<VocabularyItem>, b: seq<VocabularyItem>, order: SortOrder, k: int)
    ensures WithSortKey(a + b, order, k) == WithSortKey(a, order, k) + WithSortKey(b, order, k)
    decreases |a|
  {
    if a == [] {
      assert a + b == b;
    } else {
      var head := if SortKey(order, a[0]) == k then [a[0]] else [];
      assert (a + b)[0] == a[0] && (a + b)[1..] == a[1..] + b;
      assert WithSortKey(a + b, order, k) == head + WithSortKey(a[1..] + b, order, k);
      WithSortKeyConcat(a[1..], b, order, k);
      assert WithSortKey(a, order, k) == head + WithSortKey(a[1..], order, k);
    }
  }

  lemma WithSortKeyOne(y: VocabularyItem, order: SortOrder, k: int)
    ensures WithSortKey([y], order, k) == if SortKey(order, y) == k then [y] else []
  {
    assert [y][1..] == [];
  }

  /** Insertion is stable: among the entries with the key of `x`, `x` comes
      first, and every other key's entries are untouched and in order. */
  lemma {:induction false} InsertIsStable(x: VocabularyItem, s: seq<VocabularyItem>, order: SortOrder, k: int)
    requires InOrder(s, order)
    ensures WithSortKey(Insert(x, s, order), order, k) ==
      if SortKey(order, x) == k then [x] + WithSortKey(s, order, k) else WithSortKey(s, order, k)
    decreases |s|
  {
    if s == [] {
      WithSortKeyOne(x, order, k);
    } else if SortKey(order, x) <= SortKey(order, s[0]) {
      assert Insert(x, s, order) == [x] + s;
      WithSortKeyOne(x, order, k);
      WithSortKeyConcat([x], s, order, k);
    } else {
      InOrderTail(s, order);
      var rest := Insert(x, s[1..], order);
      assert Insert(x, s, order) == [s[0]] + rest;
      InsertIsStable(x, s[1..], order, k);
      InsertBehindHeadIsStable(x, s, rest, order, k);
    }
  }

  lemma InOrderTail(s: seq<VocabularyItem>, order: SortOrder)
    requires s != [] && InOrder(s, order)
    ensures InOrder(s[1..], order)
  {
    forall i, j | 0 <= i < j < |s| - 1 ensures SortKey(order, s[1..][i]) <= SortKey(order, s[1..][j]) {
      assert s[1..][i] == s[i + 1] && s[1..][j] == s[j + 1];
    }
  }

  /** The case of InsertIsStable where `x` goes after the head of `s` and
      into `rest`: the head's key is below the key of `x`, so it never joins
      the entries with the key of `x`. */
  lemma InsertBehindHeadIsStable(x: VocabularyItem, s: seq<VocabularyItem>, rest: seq<VocabularyItem>, order: SortOrder, k: int)
    requires s != [] && SortKey(order, s[0]) < SortKey(order, x)
    requires WithSortKey(rest, order, k) ==
      if SortKey(order, x) == k then [x] + WithSortKey(s[1..], order, k) else WithSortKey(s[1..], order, k)
    ensures WithSortKey([s[0]] + rest, order, k) ==
      if SortKey(order, x) == k then [x] + WithSortKey(s, order, k) else WithSortKey(s, order, k)
  {
    var head := WithSortKey([s[0]], order, k);
    WithSortKeyConcat([s[0]], rest, order, k);
    assert s == [s[0]] + s[1..];
    WithSortKeyConcat([s[0]], s[1..], order, k);
    WithSortKeyOne(s[0], order, k);
    if SortKey(order, x) == k {
      assert head == [];
      assert WithSortKey(s, order, k) == WithSortKey(s[1..], order, k);
    }
  }

  /** `[...filtered].sort(comparator)`: the entries in comparator order. */
  function SortedView(list: seq<VocabularyItem>, order: SortOrder): (r: seq<VocabularyItem>)
    ensures InOrder(r, order)
    ensures multiset(r) == multiset(list)
    decreases |list|
  {
    if list == [] then []
    else
      assert list == [list[0]] + list[1..];
      Insert(list[0], SortedView(list[1..], order), order)
  }

  /** JavaScript's sort is stable: entries with equal keys keep the order
      they had before sorting. */
  lemma {:induction false} SortIsStable(list: seq<VocabularyItem>, order: SortOrder, k: int)
    ensures WithSortKey(SortedView(list, order), order, k) == WithSortKey(list, order, k)
    decreases |list|
  {
    if list != [] {
      SortIsStable(list[1..], order, k);
      InsertIsStable(list[0], SortedView(list[1..], order), order, k);
      WithSortKeyConcat([list[0]], list[1..], order, k);
      WithSortKeyOne(list[0], order, k);
      assert list == [list[0]] + list[1..];
    }
  }

  /** Sorting by proficiency: ranks never decrease along the view (new, then
      learning, then mastered), and entries of one rank keep their filtered order. */
  lemma ProficiencyViewIsRanked(list: seq<VocabularyItem>)
    ensures var r := SortedView(list, ByProficiency);
      && (forall i, j :: 0 <= i < j < |r| ==> Rank(r[i].proficiency) <= Rank(r[j].proficiency))
      && (forall k :: WithSortKey(r, ByProficiency, k) == WithSortKey(list, ByProficiency, k))
  {
    forall k ensures WithSortKey(SortedView(list, ByProficiency), ByProficiency, k) == WithSortKey(list, ByProficiency, k) {
      SortIsStable(list, ByProficiency, k);
    }
  }

  /** The default sort: timestamps never increase along the view. */
  lemma DefaultViewIsNewestFirst(list: seq<VocabularyItem>)
    ensures var r := SortedView(list, NewestFirst);
      forall i, j :: 0 <= i < j < |r| ==> r[i].addedDate >= r[j].addedDate
  {
    var r := SortedView(list, NewestFirst);
    forall i, j | 0 <= i < j < |r| ensures r[i].addedDate >= r[j].addedDate {
      assert SortKey(NewestFirst, r[i]) <= SortKey(NewestFirst, r[j]);
    }
  }

  /** What the vocabulary panel shows: the counts and the ordered entries. */
  datatype View = View(total: nat, addedToday: nat, shown: seq<VocabularyItem>)

  /** `renderVocabularyList` without the DOM: the totals, and the entries
      that pass the filter (each as often as it is stored), in comparator
      order, with the filtered order kept among equal keys. */
  function Render(list: seq<VocabularyItem>, f: ViewFilter, order: SortOrder, midnight: int): (v: View)
    ensures v.total == |list|
    ensures v.addedToday == |AddedSince(list, midnight)| && v.addedToday <= v.total
    ensures forall x :: multiset(v.shown)[x] == if Matches(x, f) then multiset(list)[x] else 0
    ensures InOrder(v.shown, order)
    ensures forall k :: WithSortKey(v.shown, order, k) == WithSortKey(Filtered(list, f), order, k)
  {
    var shown := SortedView(Filtered(list, f), order);
    assert forall k :: WithSortKey(shown, order, k) == WithSortKey(Filtered(list, f), order, k) by {
      forall k ensures WithSortKey(shown, order, k) == WithSortKey(Filtered(list, f), order, k) {
        SortIsStable(Filtered(list, f), order, k);
      }
    }
    View(|list|, CountAddedSince(list, midnight), shown)
  }

}
