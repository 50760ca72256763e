/**
  The two derived views of dom-manipulation/script.js: the entries of the
  category drop-down (`['all', ...new Set(quotes.map(q => q.category))]`)
  and the quotes shown for the selected category.
 */
module QuoteViews {
  import opened Quotes

  /** The drop-down value that stands for "every category". */
  const All := "all"

  // ---------------------------------------------------------------------
  // Sequences with no repeated element, and first occurrences
  // ---------------------------------------------------------------------

  ghost predicate NoDuplicates<T>(s: seq<T>) {
    forall i, j :: 0 <= i < j < |s| ==> s[i] != s[j]
  }

  /** The position at which x first occurs in s. */
  function FirstIndex<T(==)>(s: seq<T>, x: T): (k: nat)
    requires x in s
    ensures k < |s| && s[k] == x && x !in s[..k]
  {
    if s[0] == x then 0 else
      var k := 1 + FirstIndex(s[1..], x);
      assert s[..k] == [s[0]] + s[1..][..k - 1];
      k
  }

  /** `[...new Set(s)]`: a Set iterates over its elements in the order they
      were first inserted, so this keeps the first occurrence of each value
      and drops the later ones. */
  function Distinct<T(==)>(s: seq<T>): (r: seq<T>)
    ensures NoDuplicates(r)
    ensures forall i :: 0 <= i < |s| ==> s[i] in r
    ensures forall i :: 0 <= i < |r| ==> r[i] in s
  {
    if s == [] then [] else
      var d := Distinct(s[..|s| - 1]);
      var last := s[|s| - 1];
      assert s == s[..|s| - 1] + [last];
      if last in d then d else d + [last]
  }

  lemma FirstIndexInPrefix<T>(s: seq<T>, n: nat, x: T)
    requires n <= |s| && x in s[..n]
    ensures x in s && FirstIndex(s, x) == FirstIndex(s[..n], x)
  {
    var k := FirstIndex(s[..n], x);
    assert s[..n][..k] == s[..k];
    assert s[k] == x;
    var f := FirstIndex(s, x);
    assert forall m :: 0 <= m < f ==> s[..f][m] == s[m];
    assert f <= k;
    assert s[..n][..f] == s[..f];
  }

  /** Distinct lists its values in the order of their first occurrence in s.
      With the two clauses of Distinct's own contract this determines the
      result completely: see DistinctUnique. */
  lemma {:induction false} DistinctFirstOccurrenceOrder<T>(s: seq<T>)
    ensures forall i, j :: 0 <= i < j < |Distinct(s)| ==>
      FirstIndex(s, Distinct(s)[i]) < FirstIndex(s, Distinct(s)[j])
  {
    if s != [] {
      var p := s[..|s| - 1];
      var last := s[|s| - 1];
      var d := Distinct(p);
      DistinctFirstOccurrenceOrder(p);
      forall x | x in d ensures FirstIndex(s, x) == FirstIndex(p, x) {
        assert p == s[..|s| - 1];
        FirstIndexInPrefix(s, |s| - 1, x);
      }
      if last !in d {
        assert last !in p;
        assert s[..|s| - 1] == p;
        assert FirstIndex(s, last) == |s| - 1;
      }
    }
  }

  /** Any list that has no repeats, holds exactly the values of s and keeps
      them in first-occurrence order is Distinct(s). */
  lemma {:induction false} DistinctUnique<T>(s: seq<T>, r: seq<T>)
    requires NoDuplicates(r)
    requires forall x :: x in r <==> x in s
    requires forall i, j :: 0 <= i < j < |r| ==> FirstIndex(s, r[i]) < FirstIndex(s, r[j])
    ensures r == Distinct(s)
  {
    DistinctFirstOccurrenceOrder(s);
    SameOrderedSet(s, r, Distinct(s));
  }

  /** Two repeat-free lists of the same values, both in first-occurrence
      order within s, are equal. */
  lemma {:induction false} SameOrderedSet<T>(s: seq<T>, a: seq<T>, b: seq<T>)
    requires NoDuplicates(a) && NoDuplicates(b)
    requires forall x :: x in a <==> x in b
    requires forall x :: x in a ==> x in s
    requires forall i, j :: 0 <= i < j < |a| ==> FirstIndex(s, a[i]) < FirstIndex(s, a[j])
    requires forall i, j :: 0 <= i < j < |b| ==> FirstIndex(s, b[i]) < FirstIndex(s, b[j])
    ensures a == b
    decreases |a|
  {
    HeadIsMember(a);
    HeadIsMember(b);
    if a != [] {
      SameHead(s, a, b);
      SameTailMembers(a, b);
      SameOrderedSet(s, a[1..], b[1..]);
      assert a == [a[0]] + a[1..] && b == [b[0]] + b[1..];
    }
  }

  /** The value with the smallest first index leads both lists. */
  lemma SameHead<T>(s: seq<T>, a: seq<T>, b: seq<T>)
    requires a != [] && b != []
    requires forall x :: x in a <==> x in b
    requires forall x :: x in a ==> x in s
    requires forall i, j :: 0 <= i < j < |a| ==> FirstIndex(s, a[i]) < FirstIndex(s, a[j])
    requires forall i, j :: 0 <= i < j < |b| ==> FirstIndex(s, b[i]) < FirstIndex(s, b[j])
    ensures a[0] == b[0]
  {
    assert a[0] in b && b[0] in a;
    var ia :| 0 <= ia < |a| && a[ia] == b[0];
    var ib :| 0 <= ib < |b| && b[ib] == a[0];
    assert FirstIndex(s, a[0]) <= FirstIndex(s, a[ia]);
    assert FirstIndex(s, b[0]) <= FirstIndex(s, b[ib]);
  }

  lemma SameTailMembers<T>(a: seq<T>, b: seq<T>)
    requires a != [] && b != [] && a[0] == b[0]
    requires NoDuplicates(a) && NoDuplicates(b)
    requires forall x :: x in a <==> x in b
    ensures forall x :: x in a[1..] <==> x in b[1..]
  {
    forall x ensures x in a[1..] ==> x in b[1..] {
      if x in a[1..] {
        var k :| 1 <= k < |a| && a[k] == x;
        assert x in b;
        var m :| 0 <= m < |b| && b[m] == x;
        assert b[1..][m - 1] == x;
      }
    }
    forall x ensures x in b[1..] ==> x in a[1..] {
      if x in b[1..] {
        var k :| 1 <= k < |b| && b[k] == x;
        assert x in a;
        var m :| 0 <= m < |a| && a[m] == x;
        assert a[1..][m - 1] == x;
      }
    }
  }

  lemma HeadIsMember<T>(s: seq<T>)
    ensures s != [] ==> s[0] in s
  {
  }

  // ---------------------------------------------------------------------
  // The category drop-down
  // ---------------------------------------------------------------------

  /** `quotes.map(quote => quote.category)` */
  function CategoryColumn(qs: seq<Quote>): (cs: seq<string>)
    ensures |cs| == |qs|
    ensures forall i :: 0 <= i < |qs| ==> cs[i] == qs[i].category
  {
    if qs == [] then [] else CategoryColumn(qs[..|qs| - 1]) + [qs[|qs| - 1].category]
  }

  /** The values of the category drop-down, in order. */
  function Categories(qs: seq<Quote>): (cs: seq<string>)
    ensures |cs| >= 1 && cs[0] == All
    ensures forall i :: 0 <= i < |qs| ==> qs[i].category in cs
  {
    var d := Distinct(CategoryColumn(qs));
    assert forall i :: 0 <= i < |qs| ==> CategoryColumn(qs)[i] in d;
    [All] + d
  }

  /** The drop-down starts with "all" and then lists each category that
      some quote has exactly once, in the order the categories first occur
      in the list; it holds nothing else. */
  lemma CategoriesSpec(qs: seq<Quote>)
    ensures |Categories(qs)| >= 1 && Categories(qs)[0] == All
    ensures forall i :: 0 <= i < |qs| ==> qs[i].category in Categories(qs)[1..]
    ensures forall c :: c in Categories(qs)[1..] ==> exists i :: 0 <= i < |qs| && qs[i].category == c
    ensures NoDuplicates(Categories(qs)[1..])
    ensures forall i, j :: 1 <= i < j < |Categories(qs)| ==>
      FirstIndex(CategoryColumn(qs), Categories(qs)[i]) < FirstIndex(CategoryColumn(qs), Categories(qs)[j])
  {
    var cs := CategoryColumn(qs);
    var d := Distinct(cs);
    assert Categories(qs)[1..] == d;
    forall i | 0 <= i < |qs| ensures qs[i].category in d {
      assert cs[i] == qs[i].category;
    }
    forall c | c in d ensures exists i :: 0 <= i < |qs| && qs[i].category == c {
      var i :| 0 <= i < |cs| && cs[i] == c;
    }
    DistinctFirstOccurrenceOrder(cs);
    forall i, j | 1 <= i < j < |Categories(qs)|
      ensures FirstIndex(cs, Categories(qs)[i]) < FirstIndex(cs, Categories(qs)[j])
    {
      assert Categories(qs)[i] == d[i - 1] && Categories(qs)[j] == d[j - 1];
    }
  }

  /** Only the real categories go through the Set: "all" is listed twice
      exactly when some quote's category is literally "all". */
  lemma AllListedTwiceIff(qs: seq<Quote>)
    ensures multiset(Categories(qs))[All] == if exists i :: 0 <= i < |qs| && qs[i].category == All then 2 else 1
  {
    var d := Distinct(CategoryColumn(qs));
    assert multiset(Categories(qs)) == multiset([All]) + multiset(d);
    CountInNoDuplicates(d, All);
    AllInColumnIff(qs);
  }

  lemma AllInColumnIff(qs: seq<Quote>)
    ensures All in Distinct(CategoryColumn(qs)) <==> exists i :: 0 <= i < |qs| && qs[i].category == All
  {
    var cs := CategoryColumn(qs);
    if exists i :: 0 <= i < |qs| && qs[i].category == All {
      var i :| 0 <= i < |qs| && qs[i].category == All;
      assert cs[i] == All;
    }
    if All in Distinct(cs) {
      assert All in cs;
      var i :| 0 <= i < |cs| && cs[i] == All;
      assert qs[i].category == All;
    }
  }

  lemma {:induction false} CountInNoDuplicates<T>(s: seq<T>, x: T)
    requires NoDuplicates(s)
    ensures multiset(s)[x] == if x in s then 1 else 0
  {
    if s != [] {
      CountInNoDuplicates(s[1..], x);
      assert s == [s[0]] + s[1..];
      assert s[0] !in s[1..];
    }
  }

  /** What addQuote does to the drop-down: a category not seen before is
      appended at its end, a known one changes nothing. */
  lemma CategoriesAfterAppend(qs: seq<Quote>, q: Quote)
    ensures Categories(qs + [q]) ==
      if exists i :: 0 <= i < |qs| && qs[i].category == q.category
      then Categories(qs)
      else Categories(qs) + [q.category]
  {
    var cs := CategoryColumn(qs + [q]);
    assert (qs + [q])[..|qs|] == qs;
    assert cs[..|cs| - 1] == CategoryColumn(qs);
    if exists i :: 0 <= i < |qs| && qs[i].category == q.category {
      var i :| 0 <= i < |qs| && qs[i].category == q.category;
      assert CategoryColumn(qs)[i] == q.category;
    }
  }

  // ---------------------------------------------------------------------
  // The filtered list
  // ---------------------------------------------------------------------

  /** `quotes.filter(quote => quote.category === c)` */
  function Matching(qs: seq<Quote>, c: string): (r: seq<Quote>)
    ensures |r| <= |qs|
    ensures forall i :: 0 <= i < |r| ==> r[i].category == c
  {
    if qs == [] then [] else
      (if qs[0].category == c then [qs[0]] else []) + Matching(qs[1..], c)
  }

  /** The quotes shown for the selected drop-down value: the whole list for
      "all", otherwise the exact matches. */
  function Filtered(qs: seq<Quote>, selected: string): (r: seq<Quote>)
    ensures |r| <= |qs|
    ensures selected != All ==> forall i :: 0 <= i < |r| ==> r[i].category == selected
  {
    if selected == All then qs else Matching(qs, selected)
  }

  /** r can be obtained from s by deleting elements: it keeps s's order. */
  ghost predicate IsSubsequence<T>(r: seq<T>, s: seq<T>)
    decreases |s|
  {
    if r == [] then true
    else if s == [] then false
    else (r[0] == s[0] && IsSubsequence(r[1..], s[1..])) || IsSubsequence(r, s[1..])
  }

  /** The filter keeps each quote of category c, as often as it occurs, and
      no other, in the list's own order. */
  lemma MatchingSpec(qs: seq<Quote>, c: string)
    ensures forall q :: q in Matching(qs, c) ==> q.category == c
    ensures forall q :: multiset(Matching(qs, c))[q] == if q.category == c then multiset(qs)[q] else 0
    ensures IsSubsequence(Matching(qs, c), qs)
  {
    MatchingCounts(qs, c);
    MatchingInOrder(qs, c);
    forall q | q in Matching(qs, c)
      ensures q.category == c
    {
      assert multiset(Matching(qs, c))[q] > 0;
    }
  }

  lemma {:induction false} MatchingCounts(qs: seq<Quote>, c: string)
    ensures forall q :: multiset(Matching(qs, c))[q] == if q.category == c then multiset(qs)[q] else 0
  {
    if qs != [] {
      MatchingCounts(qs[1..], c);
      assert qs == [qs[0]] + qs[1..];
      var rest := Matching(qs[1..], c);
      if qs[0].category == c {
        assert Matching(qs, c) == [qs[0]] + rest;
      } else {
        assert Matching(qs, c) == rest;
      }
    }
  }

  lemma {:induction false} MatchingInOrder(qs: seq<Quote>, c: string)
    ensures IsSubsequence(Matching(qs, c), qs)
  {
    if qs != [] {
      MatchingInOrder(qs[1..], c);
      var rest := Matching(qs[1..], c);
      if qs[0].category == c {
        assert Matching(qs, c)[1..] == rest;
      } else {
        assert Matching(qs, c) == rest;
        SubsequenceOfTail(rest, qs);
      }
    }
  }

  lemma SubsequenceOfTail<T>(r: seq<T>, s: seq<T>)
    requires s != [] && IsSubsequence(r, s[1..])
    ensures IsSubsequence(r, s)
  {
  }

  /** Filtering a concatenation filters each part: what an append (addQuote,
      importFromJsonFile) adds to the list shows up after what was shown. */
  lemma {:induction false} MatchingAppend(a: seq<Quote>, b: seq<Quote>, c: string)
    ensures Matching(a + b, c) == Matching(a, c) + Matching(b, c)
  {
    if a == [] {
      assert a + b == b;
    } else {
      assert (a + b)[0] == a[0];
      assert (a + b)[1..] == a[1..] + b;
      MatchingAppend(a[1..], b, c);
    }
  }

  /** No quote shown is one whose category differs from c; the view is
      empty exactly when no quote has category c. */
  lemma MatchingEmptyIff(qs: seq<Quote>, c: string)
    ensures Matching(qs, c) == [] <==> forall i :: 0 <= i < |qs| ==> qs[i].category != c
  {
    MatchingSpec(qs, c);
    if Matching(qs, c) != [] {
      var q := Matching(qs, c)[0];
      assert multiset(Matching(qs, c))[q] > 0;
      assert q in qs;
    } else {
      forall i | 0 <= i < |qs| ensures qs[i].category != c {
        assert multiset(qs)[qs[i]] > 0;
      }
    }
  }

  /** The filtered view for the selected value: everything, in order, for
      "all"; otherwise exactly the quotes of that category, in order. */
  lemma FilteredSpec(qs: seq<Quote>, selected: string)
    ensures selected == All ==> Filtered(qs, selected) == qs
    ensures selected != All ==> forall q :: q in Filtered(qs, selected) ==> q.category == selected
    ensures selected != All ==> forall q :: (multiset(Filtered(qs, selected))[q] ==
      if q.category == selected then multiset(qs)[q] else 0)
    ensures IsSubsequence(Filtered(qs, selected), qs)
  {
    MatchingSpec(qs, selected);
    if selected == All { SubsequenceRefl(qs); }
  }

  lemma {:induction false} SubsequenceRefl<T>(s: seq<T>)
    ensures IsSubsequence(s, s)
  {
    if s != [] {
      SubsequenceRefl(s[1..]);
    }
  }

  /** Every quote shown is a quote of the list. */
  lemma FilteredInList(qs: seq<Quote>, selected: string, k: nat)
    requires k < |Filtered(qs, selected)|
    ensures Filtered(qs, selected)[k] in qs
    ensures selected != All ==> Filtered(qs, selected)[k].category == selected
  {
    var f := Filtered(qs, selected);
    if selected != All {
      MatchingSpec(qs, selected);
      assert multiset(f)[f[k]] > 0;
    }
  }
}
