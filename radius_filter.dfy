/**
 * The candidate list: the catalog items no farther away than the search
 * radius, in catalog order (the `filter` of src/App.js:164).
 */
module RadiusFilter {
  import opened Catalog

  /** `a` is `b` with some elements dropped and the rest kept in order. */
  ghost predicate Subsequence<T>(a: seq<T>, b: seq<T>)
    decreases |b|
  {
    a == [] ||
    (b != [] && ((a[0] == b[0] && Subsequence(a[1..], b[1..])) || Subsequence(a, b[1..])))
  }

  predicate InRange(it: Item, radius: int) {
    it.distance <= radius as real
  }

  function WithinRadius(catalog: seq<Item>, radius: int): (r: seq<Item>)
    ensures |r| <= |catalog|
    ensures forall i :: 0 <= i < |r| ==> InRange(r[i], radius)
  {
    if catalog == [] then []
    else
      var rest := WithinRadius(catalog[1..], radius);
      if InRange(catalog[0], radius) then [catalog[0]] + rest else rest
  }

  /** The candidates are exactly the catalog items in range. */
  lemma {:induction false} WithinRadiusMembers(catalog: seq<Item>, radius: int)
    ensures forall it :: it in WithinRadius(catalog, radius) <==> it in catalog && InRange(it, radius)
  {
    if catalog != [] {
      WithinRadiusMembers(catalog[1..], radius);
      assert forall it :: it in catalog <==> it == catalog[0] || it in catalog[1..];
    }
  }

  /** The candidates keep their catalog order. */
  lemma {:induction false} WithinRadiusOrder(catalog: seq<Item>, radius: int)
    ensures Subsequence(WithinRadius(catalog, radius), catalog)
  {
    if catalog != [] {
      WithinRadiusOrder(catalog[1..], radius);
      var rest := WithinRadius(catalog[1..], radius);
      if InRange(catalog[0], radius) {
        assert ([catalog[0]] + rest)[1..] == rest;
      } else {
        assert rest == [] || Subsequence(rest, catalog[1..]);
      }
    }
  }

  /** Filtering a concatenation filters each part, keeping the parts in order. */
  lemma {:induction false} WithinRadiusAppend(a: seq<Item>, b: seq<Item>, radius: int)
    ensures WithinRadius(a + b, radius) == WithinRadius(a, radius) + WithinRadius(b, radius)
  {
    if a == [] {
      assert a + b == b;
    } else {
      assert (a + b)[0] == a[0];
      assert (a + b)[1..] == a[1..] + b;
      WithinRadiusAppend(a[1..], b, radius);
    }
  }

  /** When every item is in range the candidate list is the whole catalog, in order. */
  lemma {:induction false} WithinRadiusKeepsAll(catalog: seq<Item>, radius: int)
    requires forall i :: 0 <= i < |catalog| ==> InRange(catalog[i], radius)
    ensures WithinRadius(catalog, radius) == catalog
  {
    if catalog != [] {
      WithinRadiusKeepsAll(catalog[1..], radius);
    }
  }

  /** Widening the radius only adds items: the narrower list is a subsequence of the wider one. */
  lemma {:induction false} WithinRadiusMonotonic(catalog: seq<Item>, r1: int, r2: int)
    requires r1 <= r2
    ensures Subsequence(WithinRadius(catalog, r1), WithinRadius(catalog, r2))
  {
    if catalog != [] {
      WithinRadiusMonotonic(catalog[1..], r1, r2);
      var narrow, wide := WithinRadius(catalog[1..], r1), WithinRadius(catalog[1..], r2);
      if InRange(catalog[0], r1) {
        assert ([catalog[0]] + narrow)[1..] == narrow;
        assert ([catalog[0]] + wide)[1..] == wide;
      } else if InRange(catalog[0], r2) {
        SubsequenceOfTail(narrow, wide, catalog[0]);
      }
    }
  }

  lemma SubsequenceOfTail<T>(a: seq<T>, b: seq<T>, x: T)
    requires Subsequence(a, b)
    ensures Subsequence(a, [x] + b)
  {
    assert ([x] + b)[1..] == b;
  }

  function Ids(items: seq<Item>): (r: seq<int>)
    ensures |r| == |items|
    ensures forall i :: 0 <= i < |items| ==> r[i] == items[i].id
  {
    if items == [] then [] else [items[0].id] + Ids(items[1..])
  }

  /** With a one-mile radius the sample catalog yields restaurants 1, 3 and 7 (0.8, 0.5 and 0.7 miles). */
  lemma SampleOneMile()
    ensures Ids(WithinRadius(SampleRestaurants, 1)) == [1, 3, 7]
  {
  }

  /** From three miles on, every sample restaurant (the farthest is 2.1 miles) is a candidate. */
  lemma SampleWideRadius(radius: int)
    requires radius >= 3
    ensures WithinRadius(SampleRestaurants, radius) == SampleRestaurants
    ensures |WithinRadius(SampleRestaurants, radius)| == 8
  {
    WithinRadiusKeepsAll(SampleRestaurants, radius);
  }

  /**
   * Any radius the slider allows keeps The Burger Joint (0.5 miles), so with
   * the sample catalog the candidate list is never empty and the "All done"
   * screen is never shown.
   */
  lemma SliderNeverEmpties(radius: int)
    requires MinRadius <= radius <= MaxRadius
    ensures WithinRadius(SampleRestaurants, radius) != []
  {
    WithinRadiusMembers(SampleRestaurants, radius);
    assert SampleRestaurants[2] in SampleRestaurants;
    assert SampleRestaurants[2] in WithinRadius(SampleRestaurants, radius);
  }
}
