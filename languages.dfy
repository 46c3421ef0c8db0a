/** `populateLanguageFilter` (index.tsx): the options of the language filter
    are the distinct languages of the stored entries, sorted, and the current
    selection survives only while its language is still among them. */
module Languages {
  import opened Vocabulary

  /** The filter value that admits every language; the filter's first option. */
  const AllLanguages: string := "all"

  /** JavaScript's default string order as `Array.prototype.sort` uses it:
      lexicographic by code point, a proper prefix before the longer string. */
  predicate Below(a: string, b: string)
    decreases |a|
  {
    if a == [] then b != []
    else b != [] && (a[0] < b[0] || (a[0] == b[0] && Below(a[1..], b[1..])))
  }

  lemma {:induction false} BelowIrreflexive(a: string)
    ensures !Below(a, a)
    decreases |a|
  {
    if a != [] {
      BelowIrreflexive(a[1..]);
    }
  }

  lemma {:induction false} BelowTransitive(a: string, b: string, c: string)
    requires Below(a, b) && Below(b, c)
    ensures Below(a, c)
    decreases |a|
  {
    if a != [] && a[0] == b[0] && b[0] == c[0] {
      BelowTransitive(a[1..], b[1..], c[1..]);
    }
  }

  /** Two different strings are always ordered one way or the other. */
  lemma {:induction false} BelowTotal(a: string, b: string)
    requires a != b
    ensures Below(a, b) || Below(b, a)
    decreases |a|
  {
    if a != [] && b != [] && a[0] == b[0] {
      assert a == [a[0]] + a[1..] && b == [b[0]] + b[1..];
      BelowTotal(a[1..], b[1..]);
    }
  }

  /** Strictly increasing under Below: sorted and without duplicates. */
  ghost predicate StrictlySorted(s: seq<string>) {
    forall i, j :: 0 <= i < j < |s| ==> Below(s[i], s[j])
  }

  /** The languages of the stored entries. */
  ghost function StoredLanguages(list: seq<VocabularyItem>): set<string> {
    set i | 0 <= i < |list| :: list[i].language
  }

  /** Put `x` into its place in a strictly sorted list unless it is there already. */
  function InsertLanguage(s: seq<string>, x: string): (r: seq<string>)
    requires StrictlySorted(s)
    ensures StrictlySorted(r)
    ensures forall y :: y in r <==> y in s || y == x
    decreases |s|
  {
    if s == [] then [x]
    else if x == s[0] then s
    else if Below(x, s[0]) then
      assert forall j :: 0 < j < |s| ==> Below(x, s[j]) by {
        forall j | 0 < j < |s| ensures Below(x, s[j]) {
          BelowTransitive(x, s[0], s[j]);
        }
      }
      [x] + s
    else
      BelowTotal(x, s[0]);
      var rest := InsertLanguage(s[1..], x);
      assert forall y :: y in rest ==> Below(s[0], y) by {
        forall y | y in rest ensures Below(s[0], y) {
          if y != x {
            var j :| 0 <= j < |s[1..]| && s[1..][j] == y;
            assert s[j + 1] == y;
          }
        }
      }
      assert forall y :: y in s <==> y == s[0] || y in s[1..] by {
        assert s == [s[0]] + s[1..];
      }
      [s[0]] + rest
  }

  /** `[...new Set(list.map(item => item.language))].sort()`. */
  function SortedLanguages(list: seq<VocabularyItem>): (r: seq<string>)
    ensures StrictlySorted(r)
    ensures forall y :: y in r <==> y in StoredLanguages(list)
    decreases |list|
  {
    if list == [] then []
    else
      var rest := SortedLanguages(list[1..]);
      assert StoredLanguages(list) == StoredLanguages(list[1..]) + {list[0].language} by {
        forall y | y in StoredLanguages(list) ensures y in StoredLanguages(list[1..]) + {list[0].language} {
          var i :| 0 <= i < |list| && list[i].language == y;
          if i > 0 {
            assert list[1..][i - 1] == list[i];
          }
        }
        forall y | y in StoredLanguages(list[1..]) ensures y in StoredLanguages(list) {
          var i :| 0 <= i < |list[1..]| && list[1..][i].language == y;
          assert list[i + 1] == list[1..][i];
        }
      }
      InsertLanguage(rest, list[0].language)
  }

  /** Two strictly sorted lists with the same members are the same list: the
      sorted option list does not depend on the order the languages were found in. */
  lemma {:induction false} SortedDistinctIsUnique(s: seq<string>, t: seq<string>)
    requires StrictlySorted(s) && StrictlySorted(t)
    requires forall y :: y in s <==> y in t
    ensures s == t
    decreases |s|
  {
    assert s != [] ==> s[0] in t;
    assert t != [] ==> t[0] in s;
    if s != [] && t != [] {
      assert s[0] == t[0] by {
        if s[0] != t[0] {
          HeadIsLeast(t, s[0]);
          HeadIsLeast(s, t[0]);
          BelowTransitive(s[0], t[0], s[0]);
          BelowIrreflexive(s[0]);
        }
      }
      forall y ensures y in s[1..] <==> y in t[1..] {
        if y in s[1..] {
          var i :| 0 <= i < |s[1..]| && s[1..][i] == y;
          assert Below(s[0], s[i + 1]);
          BelowIrreflexive(y);
          assert y != t[0];
          assert y in t;
          assert t == [t[0]] + t[1..];
        }
        if y in t[1..] {
          var i :| 0 <= i < |t[1..]| && t[1..][i] == y;
          assert Below(t[0], t[i + 1]);
          BelowIrreflexive(y);
          assert y != s[0];
          assert y in s;
          assert s == [s[0]] + s[1..];
        }
      }
      SortedDistinctIsUnique(s[1..], t[1..]);
      assert s == [s[0]] + s[1..] && t == [t[0]] + t[1..];
    }
  }

  /** The head of a strictly sorted list is below every other member. */
  lemma HeadIsLeast(s: seq<string>, y: string)
    requires StrictlySorted(s) && y in s && y != s[0]
    ensures Below(s[0], y)
  {
    var j :| 0 <= j < |s| && s[j] == y;
  }

  /** The option values after the leading `AllLanguages`, and the selection. */
  datatype LanguageFilter = LanguageFilter(options: seq<string>, selected: string)

  /** `populateLanguageFilter` with `current` the selection before it runs:
      the options are exactly the stored languages, sorted and without
      duplicates, and the selection is kept if its language is still stored
      and otherwise falls back to `AllLanguages`. */
  function PopulateLanguageFilter(list: seq<VocabularyItem>, current: string): (r: LanguageFilter)
    ensures StrictlySorted(r.options)
    ensures forall y :: y in r.options <==> y in StoredLanguages(list)
    ensures r.selected == if current in StoredLanguages(list) then current else AllLanguages
  {
    var languages := SortedLanguages(list);
    LanguageFilter(languages, if current in languages then current else AllLanguages)
  }

}
