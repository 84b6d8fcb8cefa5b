/** Half-open ranges of back-end ids, and the predicates `Group` steers by. */
module Ranges {

  datatype Range = Range(first: int, last: int) {

    predicate Has(x: int) {
      first <= x < last
    }

    predicate NonEmpty() {
      first < last
    }

    function Ids(): set<int> {
      set x | first <= x < last && Has(x)
    }

    predicate Contains(r: Range) {
      first <= r.first && r.last <= last
    }

    predicate Intersects(r: Range) {
      || (first <= r.first && r.first < last)
      || (first < r.last && r.last <= last)
      || Contains(r)
      || r.Contains(this)
    }

    predicate Touches(r: Range) {
      || (first <= r.first && r.first <= last)
      || (first <= r.last && r.last <= last)
      || Contains(r)
      || r.Contains(this)
    }

    predicate IsBefore(r: Range) {
      last <= r.first
    }

    predicate Splits(r: Range) {
      r.first < first && last < r.last
    }

    /** The union of two touching ranges has no gap, so it is again one range. */
    function Union(r: Range): (u: Range)
      requires Touches(r)
      ensures NonEmpty() && r.NonEmpty() ==> u.NonEmpty() && forall x :: u.Has(x) <==> Has(x) || r.Has(x)
    {
      Range(if first < r.first then first else r.first,
            if last > r.last then last else r.last)
    }

    /** What is left of this range without `r`, when that is a single non-empty range. */
    function Difference(r: Range): (d: Range)
      requires NonEmpty() && r.NonEmpty()
      requires !r.Splits(this) && !r.Contains(this)
      ensures d.NonEmpty() && forall x :: d.Has(x) <==> Has(x) && !r.Has(x)
    {
      if Intersects(r) then
        if first < r.first then Range(first, r.first) else Range(r.last, last)
      else
        this
    }
  }

  /** `Intersects` means a common member; `Touches` means that no id lies strictly between the two. */
  lemma PredicatesMeanSets(a: Range, b: Range)
    requires a.NonEmpty() && b.NonEmpty()
    ensures a.Intersects(b) <==> exists x :: a.Has(x) && b.Has(x)
    ensures a.Touches(b) <==> !(exists x :: (a.last <= x < b.first || b.last <= x < a.first) && !a.Has(x) && !b.Has(x))
    ensures a.IsBefore(b) <==> forall x, y :: a.Has(x) && b.Has(y) ==> x < y
    ensures a.Contains(b) <==> forall x :: b.Has(x) ==> a.Has(x)
    ensures a.Splits(b) <==> b.Has(a.first - 1) && b.Has(a.last) && b.Contains(a)
  {
    if a.Intersects(b) {
      var x := if a.first > b.first then a.first else b.first;
      assert a.Has(x) && b.Has(x);
    }
    if !a.Touches(b) {
      var x := if a.last < b.first then a.last else b.last;
      assert (a.last <= x < b.first || b.last <= x < a.first) && !a.Has(x) && !b.Has(x);
    }
    assert a.Has(a.last - 1) && b.Has(b.first) && b.Has(b.last - 1);
  }
}
