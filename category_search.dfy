/** The search box of the product-categories page: the categories whose name contains
    the query, ignoring case. */
module CategorySearch {
  import opened Wrappers
  import opened Text
  import opened CategoryRoutes

  /** `name.toLowerCase().includes(query.toLowerCase())`. */
  predicate Matches(c: Category, query: string) {
    Contains(ToLower(c.name), ToLower(query))
  }

  /** The loaded categories that match, in their order. */
  function Filter(categories: seq<Category>, query: string): (r: seq<Category>)
    ensures |r| <= |categories|
    ensures forall c :: c in r <==> c in categories && Matches(c, query)
    ensures forall c :: multiset(r)[c] == if Matches(c, query) then multiset(categories)[c] else 0
  {
    if categories == [] then []
    else
      var rest := Filter(categories[1..], query);
      FilterConsCounts(categories, query, rest);
      (if Matches(categories[0], query) then [categories[0]] else []) + rest
  }

  /** Keeping or dropping the head of the list keeps `Filter`'s counts and members. */
  lemma FilterConsCounts(categories: seq<Category>, query: string, rest: seq<Category>)
    requires categories != []
    requires forall c :: multiset(rest)[c] == if Matches(c, query) then multiset(categories[1..])[c] else 0
    ensures var r := (if Matches(categories[0], query) then [categories[0]] else []) + rest;
      (forall c :: multiset(r)[c] == if Matches(c, query) then multiset(categories)[c] else 0) &&
      (forall c :: c in r <==> c in categories && Matches(c, query))
  {
    var r := (if Matches(categories[0], query) then [categories[0]] else []) + rest;
    assert categories == [categories[0]] + categories[1..];
    assert multiset(categories) == multiset([categories[0]]) + multiset(categories[1..]);
    forall c
      ensures c in r <==> c in categories && Matches(c, query)
    {
      assert c in r <==> multiset(r)[c] > 0;
      assert c in categories <==> multiset(categories)[c] > 0;
    }
  }

  /** `filteredCategories`: nothing while no categories are loaded. */
  function FilteredCategories(categories: Option<seq<Category>>, query: string): (r: seq<Category>)
    ensures categories.None? ==> r == []
    ensures categories.Some? ==> forall c :: c in r <==> c in categories.value && Matches(c, query)
  {
    if categories.None? then [] else Filter(categories.value, query)
  }

  /** `a` is `b` with some elements left out. */
  ghost predicate IsSubsequence<T>(a: seq<T>, b: seq<T>)
    decreases |b|
  {
    if a == [] then true
    else if b == [] then false
    else (a[0] == b[0] && IsSubsequence(a[1..], b[1..])) || IsSubsequence(a, b[1..])
  }

  lemma {:induction false} SubsequenceOfSelf<T>(a: seq<T>)
    ensures IsSubsequence(a, a)
  {
    if a != [] {
      SubsequenceOfSelf(a[1..]);
    }
  }

  /** The result keeps the order of the list and adds nothing. */
  lemma {:induction false} FilterIsSubsequence(categories: seq<Category>, query: string)
    ensures IsSubsequence(Filter(categories, query), categories)
  {
    if categories != [] {
      FilterIsSubsequence(categories[1..], query);
      var r := Filter(categories, query);
      if Matches(categories[0], query) {
        assert r[0] == categories[0] && r[1..] == Filter(categories[1..], query);
      } else {
        assert r == Filter(categories[1..], query);
      }
    }
  }

  /** An empty query keeps every category. */
  lemma {:induction false} EmptyQueryKeepsAll(categories: seq<Category>)
    ensures Filter(categories, "") == categories
  {
    if categories != [] {
      ContainsEmpty(ToLower(categories[0].name));
      EmptyQueryKeepsAll(categories[1..]);
      assert [categories[0]] + categories[1..] == categories;
    }
  }

  /** Filtering twice with the same query changes nothing. */
  lemma {:induction false} FilterIdempotent(categories: seq<Category>, query: string)
    ensures Filter(Filter(categories, query), query) == Filter(categories, query)
  {
    if categories != [] {
      FilterIdempotent(categories[1..], query);
      var rest := Filter(categories[1..], query);
      if Matches(categories[0], query) {
        var once := [categories[0]] + rest;
        assert Filter(categories, query) == once;
        assert once[0] == categories[0] && once[1..] == rest;
        assert Filter(once, query) == [categories[0]] + Filter(rest, query);
      } else {
        assert Filter(categories, query) == rest;
      }
    }
  }

  /** The query is matched without regard to case. */
  lemma QueryCaseIgnored(categories: seq<Category>, query: string)
    ensures Filter(categories, ToLower(query)) == Filter(categories, query)
  {
    ToLowerIdempotent(query);
    SameMatchesSameFilter(categories, ToLower(query), query);
  }

  /** Two queries that match the same categories filter alike. */
  lemma {:induction false} SameMatchesSameFilter(categories: seq<Category>, q1: string, q2: string)
    requires forall c :: Matches(c, q1) == Matches(c, q2)
    ensures Filter(categories, q1) == Filter(categories, q2)
  {
    if categories != [] {
      SameMatchesSameFilter(categories[1..], q1, q2);
    }
  }
}
