/** Sets of back-end ids kept as sorted vectors of half-open ranges, updated in place. */
module Groups {
  import opened Ranges
  import opened SortedSets

  /** Non-empty ranges in ascending order with a gap between neighbours. */
  ghost predicate Canonical(s: seq<Range>) {
    && (forall i :: 0 <= i < |s| ==> s[i].NonEmpty())
    && (forall i, j :: 0 <= i < j < |s| ==> s[i].last < s[j].first)
  }

  function Members(s: seq<Range>): set<int> {
    if s == [] then {} else s[0].Ids() + Members(s[1..])
  }

  /** Everything in `s[..n]` ends strictly below `x`: the contract between a position hint and the next insertion. */
  ghost predicate Below(s: seq<Range>, n: int, x: int) {
    && n <= |s|
    && forall i :: 0 <= i < n ==> s[i].last < x
  }

  /** The weaker contract deletion needs: everything in `s[..n]` ends at or below `x`. */
  ghost predicate UpTo(s: seq<Range>, n: int, x: int) {
    && n <= |s|
    && forall i :: 0 <= i < n ==> s[i].last <= x
  }

  // ----- list surgery -----

  lemma {:induction false} MembersIff(s: seq<Range>, x: int)
    ensures x in Members(s) <==> exists i :: 0 <= i < |s| && s[i].Has(x)
  {
    if s != [] {
      MembersIff(s[1..], x);
      if exists i :: 0 <= i < |s| && s[i].Has(x) {
        var i :| 0 <= i < |s| && s[i].Has(x);
        assert i > 0 ==> s[1..][i - 1].Has(x);
      }
      if exists i :: 0 <= i < |s[1..]| && s[1..][i].Has(x) {
        var i :| 0 <= i < |s[1..]| && s[1..][i].Has(x);
        assert s[i + 1].Has(x);
      }
    }
  }

  lemma {:induction false} MembersConcat(s: seq<Range>, t: seq<Range>)
    ensures Members(s + t) == Members(s) + Members(t)
  {
    if s == [] {
      assert s + t == t;
    } else {
      MembersConcat(s[1..], t);
      assert (s + t)[1..] == s[1..] + t;
    }
  }

  lemma MembersOne(r: Range)
    ensures Members([r]) == r.Ids() && Members([]) == {}
  {
    assert [r][1..] == [];
  }

  lemma MembersSnoc(s: seq<Range>, r: Range)
    ensures Members(s + [r]) == Members(s) + r.Ids()
  {
    MembersConcat(s, [r]);
    assert [r][1..] == [];
  }

  /** Replacing the middle `s[a..b]` by `mid`. */
  lemma MembersSplice(s: seq<Range>, a: nat, b: nat, mid: seq<Range>)
    requires a <= b <= |s|
    ensures Members(s) == Members(s[..a]) + Members(s[a..b]) + Members(s[b..])
    ensures Members(s[..a] + mid + s[b..]) == Members(s[..a]) + Members(mid) + Members(s[b..])
  {
    MembersConcat(s[..a], s[a..b]);
    MembersConcat(s[..a] + s[a..b], s[b..]);
    assert s == s[..a] + s[a..b] + s[b..];
    MembersConcat(s[..a], mid);
    MembersConcat(s[..a] + mid, s[b..]);
  }

  /** Members of a canonical list lie above its first bound and below its last. */
  lemma MembersBounds(s: seq<Range>, x: int)
    requires Canonical(s) && x in Members(s)
    ensures s != [] && s[0].first <= x < s[|s| - 1].last
  {
    MembersIff(s, x);
  }

  // ----- canonical form -----

  /** A canonical list starts at its least member, and its first range ends at the least id missing after that. */
  lemma HeadOfCanonical(s: seq<Range>)
    requires Canonical(s) && s != []
    ensures s[0].first in Members(s) && (forall x :: x in Members(s) ==> s[0].first <= x)
    ensures s[0].last !in Members(s) && s[0].Ids() <= Members(s)
    ensures Canonical(s[1..]) && Members(s[1..]) == Members(s) - s[0].Ids()
  {
    forall x | x in Members(s[1..])
      ensures s[0].last < x
    {
      MembersBounds(s[1..], x);
    }
  }

  /** Two groups hold the same ids exactly when their range lists are equal. */
  lemma {:induction false} CanonicalUnique(s: seq<Range>, t: seq<Range>)
    requires Canonical(s) && Canonical(t)
    ensures Members(s) == Members(t) <==> s == t
  {
    if Members(s) == Members(t) {
      if s != [] { HeadOfCanonical(s); }
      if t != [] { HeadOfCanonical(t); }
      assert s == [] <==> t == [];
      if s != [] {
        assert s[0].first == t[0].first;
        assert s[0].last !in t[0].Ids() && t[0].last !in s[0].Ids();
        CanonicalUnique(s[1..], t[1..]);
        assert s == [s[0]] + s[1..] && t == [t[0]] + t[1..];
      }
    }
  }

  // ----- enumeration -----

  function Span(a: int, b: int): (q: seq<int>)
    ensures |q| == (if a < b then b - a else 0)
    ensures forall i :: 0 <= i < |q| ==> q[i] == a + i
  {
    if a < b then seq(b - a, i => a + i) else []
  }

  lemma SpanStep(a: int, b: int)
    requires a < b
    ensures Span(a, b) == [a] + Span(a + 1, b)
  {
  }

  lemma SpanEnumerates(a: int, b: int)
    ensures Ascending(Span(a, b)) && Elements(Span(a, b)) == Range(a, b).Ids()
  {
    forall x | Range(a, b).Has(x)
      ensures x in Span(a, b)
    {
      assert Span(a, b)[x - a] == x;
    }
  }

  /** The ids in the order the group iterator delivers them. */
  function Listing(s: seq<Range>): seq<int> {
    if s == [] then [] else Span(s[0].first, s[0].last) + Listing(s[1..])
  }

  lemma {:induction false} ListingAscends(s: seq<Range>)
    requires Canonical(s)
    ensures Ascending(Listing(s)) && Elements(Listing(s)) == Members(s)
  {
    if s != [] {
      ListingAscends(s[1..]);
      SpanEnumerates(s[0].first, s[0].last);
      var a, b := Span(s[0].first, s[0].last), Listing(s[1..]);
      forall i | 0 <= i < |b|
        ensures s[0].last < b[i]
      {
        assert b[i] in Elements(b);
        MembersBounds(s[1..], b[i]);
      }
      assert Elements(a + b) == Elements(a) + Elements(b);
    }
  }

  /** Iteration visits each member exactly once, in ascending order. */
  lemma ListingIsEnumeration(s: seq<Range>)
    requires Canonical(s)
    ensures Listing(s) == Enumerate(Members(s))
    ensures |Listing(s)| == |Members(s)|
  {
    ListingAscends(s);
    EnumerateAscends(Members(s));
    AscendingUnique(Listing(s), Enumerate(Members(s)));
    EnumerateLength(Members(s));
  }

  // ----- insertion -----

  /** `t` is a canonical list for the members of `s` together with `r`. */
  ghost predicate Added(s: seq<Range>, r: Range, t: seq<Range>) {
    Canonical(t) && Members(t) == Members(s) + r.Ids()
  }

  lemma SpliceCanonical(s: seq<Range>, a: nat, b: nat, u: Range)
    requires Canonical(s) && u.NonEmpty() && a <= b <= |s|
    requires Below(s, a, u.first) && (b < |s| ==> u.last < s[b].first)
    ensures Canonical(s[..a] + [u] + s[b..])
  {
    var t := s[..a] + [u] + s[b..];
    assert forall i :: a < i < |t| ==> t[i] == s[i - a - 1 + b];
  }

  /** Inserting a range that touches nothing. */
  lemma InsertCorrect(s: seq<Range>, a: nat, r: Range)
    requires Canonical(s) && r.NonEmpty() && a <= |s|
    requires Below(s, a, r.first) && (a < |s| ==> r.last < s[a].first)
    ensures Added(s, r, s[..a] + [r] + s[a..])
  {
    SpliceCanonical(s, a, a, r);
    MembersSplice(s, a, a, [r]);
    assert [r][1..] == [];
  }

  /** The list is canonical but for the range at `p`, which may have grown over its right neighbours. */
  ghost predicate Grown(t: seq<Range>, p: nat) {
    && p < |t| && t[p].NonEmpty() && Below(t, p, t[p].first)
    && Canonical(t[..p]) && Canonical(t[p + 1..])
    && (p + 1 < |t| ==> t[p].first < t[p + 1].first)
  }

  function Joined(t: seq<Range>, p: nat): seq<Range>
    requires p + 1 < |t| && t[p].Touches(t[p + 1])
  {
    t[..p] + [t[p].Union(t[p + 1])] + t[p + 2..]
  }

  /** What is left when the range at `p` has swallowed its right neighbours for as long as they touch it. */
  function AbsorbFrom(t: seq<Range>, p: nat): seq<Range>
    decreases |t|
  {
    if p + 1 < |t| && t[p].Touches(t[p + 1]) then AbsorbFrom(Joined(t, p), p) else t
  }

  lemma JoinedGrown(t: seq<Range>, p: nat)
    requires Grown(t, p) && p + 1 < |t| && t[p].Touches(t[p + 1])
    ensures Grown(Joined(t, p), p) && Joined(t, p)[p].Contains(t[p])
  {
    var j, tail := Joined(t, p), t[p + 1..];
    assert tail[0] == t[p + 1] && tail[0].NonEmpty();
    assert j[..p] == t[..p] && j[p + 1..] == t[p + 2..] == tail[1..];
    assert p + 2 < |t| ==> t[p + 2] == tail[1] && tail[0].last < tail[1].first;
  }

  lemma MembersTwo(a: Range, b: Range)
    ensures Members([a, b]) == a.Ids() + b.Ids()
  {
    assert [a, b][1..] == [b];
    MembersOne(b);
  }

  lemma JoinedMembers(t: seq<Range>, p: nat)
    requires p + 1 < |t| && t[p].NonEmpty() && t[p + 1].NonEmpty() && t[p].Touches(t[p + 1])
    ensures Members(Joined(t, p)) == Members(t)
  {
    hide Members;
    var u := t[p].Union(t[p + 1]);
    MembersSplice(t, p, p + 2, [u]);
    assert t[p..p + 2] == [t[p], t[p + 1]];
    MembersTwo(t[p], t[p + 1]);
    MembersOne(u);
    assert u.Ids() == t[p].Ids() + t[p + 1].Ids();
  }

  lemma {:induction false} AbsorbCorrect(t: seq<Range>, p: nat)
    requires Grown(t, p)
    ensures Canonical(AbsorbFrom(t, p)) && Members(AbsorbFrom(t, p)) == Members(t)
    ensures p < |AbsorbFrom(t, p)| && AbsorbFrom(t, p)[p].Contains(t[p])
    decreases |t|
  {
    if p + 1 < |t| && t[p].Touches(t[p + 1]) {
      JoinedGrown(t, p);
      assert t[p + 1..][0] == t[p + 1];
      JoinedMembers(t, p);
      AbsorbCorrect(Joined(t, p), p);
    } else {
      SettledCanonical(t, p);
    }
  }

  lemma SettledCanonical(t: seq<Range>, p: nat)
    requires Grown(t, p) && (p + 1 < |t| ==> !t[p].Touches(t[p + 1]))
    ensures Canonical(t)
  {
    var tail := t[p + 1..];
    assert forall i :: 0 <= i < p ==> t[i] == t[..p][i];
    assert forall i :: p < i < |t| ==> t[i] == tail[i - p - 1];
    assert forall i :: p < i < |t| ==> t[p].last < t[i].first;
  }

  /** Growing the range at `p` by a range that touches it. */
  lemma GrowCorrect(s: seq<Range>, p: nat, r: Range)
    requires Canonical(s) && r.NonEmpty() && p < |s| && Below(s, p, r.first) && r.Touches(s[p])
    ensures Grown(s[p := r.Union(s[p])], p)
  {
    var t := s[p := r.Union(s[p])];
    assert t[..p] == s[..p] && t[p + 1..] == s[p + 1..];
    assert p + 1 < |s| ==> s[p].last < s[p + 1].first;
  }

  lemma GrowMembers(s: seq<Range>, p: nat, r: Range)
    requires r.NonEmpty() && p < |s| && s[p].NonEmpty() && r.Touches(s[p])
    ensures Members(s[p := r.Union(s[p])]) == Members(s) + r.Ids()
  {
    var u := r.Union(s[p]);
    assert s[p := u] == s[..p] + [u] + s[p + 1..];
    MembersSplice(s, p, p + 1, [u]);
    assert s[p..p + 1] == [s[p]] && [s[p]][1..] == [] && [u][1..] == [];
    assert u.Ids() == r.Ids() + s[p].Ids();
  }

  // ----- deletion -----

  /** `t` is a canonical list for the members of `s` outside `r`. */
  ghost predicate Removed(s: seq<Range>, r: Range, t: seq<Range>) {
    Canonical(t) && Members(t) == Members(s) - r.Ids()
  }

  /** `r` lies strictly inside none of the ranges from `p` on, and the ranges before `p` do not meet it. */
  ghost predicate Sweepable(t: seq<Range>, p: nat, r: Range) {
    && r.NonEmpty() && Canonical(t) && p <= |t|
    && (forall i :: 0 <= i < p ==> !t[i].Intersects(r))
    && (forall i :: p <= i < |t| ==> !r.Splits(t[i]))
  }

  function Cut(c: Range, r: Range): Range {
    if c.NonEmpty() && r.NonEmpty() && !r.Splits(c) && !r.Contains(c) then c.Difference(r) else c
  }

  /** The list after every range from `p` on has been erased when `r` covers it and shortened otherwise. */
  function SweepFrom(t: seq<Range>, p: nat, r: Range): seq<Range>
    decreases |t| - p
  {
    if p >= |t| then t
    else if r.Contains(t[p]) then SweepFrom(t[..p] + t[p + 1..], p, r)
    else SweepFrom(t[p := Cut(t[p], r)], p + 1, r)
  }

  lemma EraseSweepable(t: seq<Range>, p: nat, r: Range)
    requires Sweepable(t, p, r) && p < |t|
    ensures Sweepable(t[..p] + t[p + 1..], p, r)
  {
    var e := t[..p] + t[p + 1..];
    assert forall i :: 0 <= i < p ==> e[i] == t[i];
    assert forall i :: p <= i < |e| ==> e[i] == t[i + 1];
  }

  lemma EraseMembers(t: seq<Range>, p: nat, r: Range)
    requires p < |t| && r.Contains(t[p])
    ensures Members(t[..p] + t[p + 1..]) - r.Ids() == Members(t) - r.Ids()
  {
    hide Members;
    MembersSplice(t, p, p + 1, []);
    assert t[..p] + [] + t[p + 1..] == t[..p] + t[p + 1..] && t[p..p + 1] == [t[p]];
    MembersOne(t[p]);
    assert t[p].Ids() <= r.Ids();
  }

  lemma CutSweepable(t: seq<Range>, p: nat, r: Range)
    requires Sweepable(t, p, r) && p < |t| && !r.Contains(t[p])
    ensures Sweepable(t[p := Cut(t[p], r)], p + 1, r)
  {
    var c := Cut(t[p], r);
    assert !r.Splits(t[p]) && t[p].NonEmpty();
    assert t[p].Contains(c) && c.NonEmpty() && !c.Intersects(r);
  }

  lemma CutMembers(t: seq<Range>, p: nat, r: Range)
    requires p < |t| && t[p].NonEmpty() && r.NonEmpty() && !r.Splits(t[p]) && !r.Contains(t[p])
    ensures Members(t[p := Cut(t[p], r)]) - r.Ids() == Members(t) - r.Ids()
  {
    var c := Cut(t[p], r);
    MembersSplice(t, p, p + 1, [c]);
    assert t[..p] + [c] + t[p + 1..] == t[p := c] && t[p..p + 1] == [t[p]] && [t[p]][1..] == [] && [c][1..] == [];
    assert c.Ids() == t[p].Ids() - r.Ids();
  }

  lemma {:induction false} SweepCorrect(t: seq<Range>, p: nat, r: Range)
    requires Sweepable(t, p, r)
    ensures Removed(t, r, SweepFrom(t, p, r))
    ensures p <= |SweepFrom(t, p, r)| && SweepFrom(t, p, r)[..p] == t[..p]
    decreases |t| - p
  {
    if p == |t| {
      Untouched(t, r);
    } else if r.Contains(t[p]) {
      EraseSweepable(t, p, r);
      EraseMembers(t, p, r);
      SweepCorrect(t[..p] + t[p + 1..], p, r);
      assert (t[..p] + t[p + 1..])[..p] == t[..p];
    } else {
      CutSweepable(t, p, r);
      CutMembers(t, p, r);
      var c := t[p := Cut(t[p], r)];
      SweepCorrect(c, p + 1, r);
      assert SweepFrom(c, p + 1, r)[..p] == SweepFrom(c, p + 1, r)[..p + 1][..p] == c[..p] == t[..p];
    }
  }

  /** A range that meets nothing in the list takes nothing away. */
  lemma Untouched(t: seq<Range>, r: Range)
    requires Canonical(t) && r.NonEmpty() && forall i :: 0 <= i < |t| ==> !t[i].Intersects(r)
    ensures Removed(t, r, t)
  {
    forall x | x in Members(t)
      ensures !r.Has(x)
    {
      MembersIff(t, x);
    }
  }

  /** Cutting a proper inner part `r` out of `s[k]` leaves two ranges. */
  lemma SplitCorrect(s: seq<Range>, k: nat, r: Range)
    requires Canonical(s) && r.NonEmpty() && k < |s| && r.Splits(s[k])
    ensures Removed(s, r, s[..k] + [Range(s[k].first, r.first), Range(r.last, s[k].last)] + s[k + 1..])
  {
    var l, h := Range(s[k].first, r.first), Range(r.last, s[k].last);
    SplitCanonical(s, k, l, h);
    MembersSplice(s, k, k + 1, [l, h]);
    assert [l, h][1..] == [h] && [h][1..] == [] && s[k..k + 1] == [s[k]] && [s[k]][1..] == [];
    assert l.Ids() + h.Ids() == s[k].Ids() - r.Ids();
    SidesAvoid(s, k, r);
  }

  lemma SplitCanonical(s: seq<Range>, k: nat, l: Range, h: Range)
    requires Canonical(s) && k < |s| && l.NonEmpty() && h.NonEmpty()
    requires s[k].first == l.first && l.last < h.first && h.last == s[k].last
    ensures Canonical(s[..k] + [l, h] + s[k + 1..])
  {
    var t := s[..k] + [l, h] + s[k + 1..];
    assert forall i :: k + 1 < i < |t| ==> t[i] == s[i - 1];
  }

  lemma SidesAvoid(s: seq<Range>, k: nat, r: Range)
    requires Canonical(s) && k < |s| && s[k].Contains(r)
    ensures Members(s[..k]) !! r.Ids() && Members(s[k + 1..]) !! r.Ids()
  {
    forall x | x in Members(s[..k])
      ensures !r.Has(x)
    {
      MembersBounds(s[..k], x);
    }
    forall x | x in Members(s[k + 1..])
      ensures !r.Has(x)
    {
      MembersBounds(s[k + 1..], x);
    }
  }

  // ----- the class -----

  class Group {
    var rangeList: seq<Range>

    ghost predicate Valid()
      reads this
    {
      Canonical(rangeList)
    }

    ghost function Set(): set<int>
      reads this
    {
      Members(rangeList)
    }

    constructor ()
      ensures Valid() && Set() == {} && rangeList == []
    {
      rangeList := [];
    }

    constructor Of(s: seq<Range>)
      requires Canonical(s)
      ensures Valid() && rangeList == s
    {
      rangeList := s;
    }

    constructor Copy(g: Group)
      requires g.Valid()
      ensures Valid() && rangeList == g.rangeList
    {
      rangeList := [];
      new;
      AddGroup(g);
      CanonicalUnique(rangeList, g.rangeList);
    }

    /** Union with one range, searching from `hint`; the returned position is the range that now holds `r`. */
    method AddAt(r: Range, hint: nat) returns (pos: nat)
      requires Valid() && r.NonEmpty()
      requires Below(rangeList, hint, r.first)
      modifies this
      ensures Added(old(rangeList), r, rangeList)
      ensures pos < |rangeList| && rangeList[pos].Contains(r)
    {
      ghost var s := rangeList;
      if rangeList != [] && !r.Touches(rangeList[|rangeList| - 1]) && !r.IsBefore(rangeList[|rangeList| - 1]) {
        InsertCorrect(s, |s|, r);
        rangeList := rangeList + [r];
        assert rangeList == s[..|s|] + [r] + s[|s|..];
        return |rangeList| - 1;
      }
      pos := hint;
      while pos < |rangeList| && !(r.Touches(rangeList[pos]) || r.IsBefore(rangeList[pos]))
        invariant Below(rangeList, pos, r.first)
      {
        pos := pos + 1;
      }
      if pos < |rangeList| && r.Touches(rangeList[pos]) {
        GrowCorrect(s, pos, r);
        GrowMembers(s, pos, r);
        rangeList := rangeList[pos := r.Union(rangeList[pos])];
        AbsorbCorrect(rangeList, pos);
        Absorb(pos);
      } else {
        InsertCorrect(s, pos, r);
        rangeList := rangeList[..pos] + [r] + rangeList[pos..];
      }
    }

    /** The inner loop of `AddAt`: overwrite the range at `pos` by its union with the next, and erase the next. */
    method Absorb(pos: nat)
      requires pos < |rangeList|
      modifies this
      ensures rangeList == AbsorbFrom(old(rangeList), pos)
    {
      while pos + 1 < |rangeList| && rangeList[pos].Touches(rangeList[pos + 1])
        invariant AbsorbFrom(rangeList, pos) == AbsorbFrom(old(rangeList), pos)
        decreases |rangeList|
      {
        rangeList := rangeList[..pos] + [rangeList[pos].Union(rangeList[pos + 1])] + rangeList[pos + 2..];
      }
    }

    method Add(r: Range)
      requires Valid() && r.NonEmpty()
      modifies this
      ensures Added(old(rangeList), r, rangeList)
    {
      var _ := AddAt(r, 0);
    }

    method AddId(id: int)
      requires Valid()
      modifies this
      ensures Valid() && Set() == old(Set()) + {id}
    {
      Add(Range(id, id + 1));
      assert Range(id, id + 1).Ids() == {id};
    }

    /** Union with a whole group in one sweep: each search starts where the last one stopped. */
    method AddGroup(g: Group)
      requires Valid() && g.Valid() && g != this
      modifies this
      ensures Valid() && Set() == old(Set()) + g.Set()
    {
      var pos: nat := 0;
      for i := 0 to |g.rangeList|
        invariant Valid() && pos <= |rangeList|
        invariant Set() == old(Set()) + Members(g.rangeList[..i])
        invariant i == 0 ==> pos == 0
        invariant i > 0 ==> pos < |rangeList| && rangeList[pos].first <= g.rangeList[i - 1].first
      {
        var r := g.rangeList[i];
        assert i > 0 ==> g.rangeList[i - 1].last < r.first;
        pos := AddAt(r, pos);
        assert g.rangeList[..i + 1] == g.rangeList[..i] + [r];
        MembersSnoc(g.rangeList[..i], r);
      }
      assert g.rangeList[..|g.rangeList|] == g.rangeList;
    }

    /** Difference with one range, searching from `hint`. */
    method DeleteAt(r: Range, hint: nat) returns (pos: nat)
      requires Valid() && r.NonEmpty()
      requires UpTo(rangeList, hint, r.first)
      modifies this
      ensures Removed(old(rangeList), r, rangeList)
      ensures UpTo(rangeList, pos, r.first)
    {
      ghost var s := rangeList;
      pos := hint;
      while pos < |rangeList| && !(r.Intersects(rangeList[pos]) || r.IsBefore(rangeList[pos]))
        invariant UpTo(rangeList, pos, r.first)
      {
        pos := pos + 1;
      }
      if pos == |rangeList| || !r.Intersects(rangeList[pos]) {
        assert forall i :: 0 <= i < |s| ==> !s[i].Intersects(r);
        Untouched(s, r);
      } else if r.Splits(rangeList[pos]) {
        SplitCorrect(s, pos, r);
        var newRange := Range(r.last, rangeList[pos].last);
        rangeList := rangeList[..pos] + [Range(rangeList[pos].first, r.first), newRange] + rangeList[pos + 1..];
        pos := pos + 1;
      } else {
        SweepCorrect(s, pos, r);
        Sweep(r, pos);
        assert forall i :: 0 <= i < pos ==> rangeList[i] == rangeList[..pos][i] == s[i];
      }
    }

    /** The inner loop of `DeleteAt`: erase or shorten every range from `start` to the end of the list. */
    method Sweep(r: Range, start: nat)
      requires Sweepable(rangeList, start, r)
      modifies this
      ensures rangeList == SweepFrom(old(rangeList), start, r)
    {
      var pos: nat := start;
      while pos < |rangeList|
        invariant Sweepable(rangeList, pos, r)
        invariant SweepFrom(rangeList, pos, r) == SweepFrom(old(rangeList), start, r)
        decreases |rangeList| - pos
      {
        if r.Contains(rangeList[pos]) {
          EraseSweepable(rangeList, pos, r);
          rangeList := rangeList[..pos] + rangeList[pos + 1..];
        } else {
          CutSweepable(rangeList, pos, r);
          rangeList := rangeList[pos := rangeList[pos].Difference(r)];
          pos := pos + 1;
        }
      }
    }

    method Delete(r: Range)
      requires Valid() && r.NonEmpty()
      modifies this
      ensures Removed(old(rangeList), r, rangeList)
    {
      var _ := DeleteAt(r, 0);
    }

    method DeleteId(id: int)
      requires Valid()
      modifies this
      ensures Valid() && Set() == old(Set()) - {id}
    {
      Delete(Range(id, id + 1));
      assert Range(id, id + 1).Ids() == {id};
    }

    /** Difference with a whole group in one sweep. */
    method DeleteGroup(g: Group)
      requires Valid() && g.Valid() && g != this
      modifies this
      ensures Valid() && Set() == old(Set()) - g.Set()
    {
      var pos: nat := 0;
      for i := 0 to |g.rangeList|
        invariant Valid() && pos <= |rangeList|
        invariant Set() == old(Set()) - Members(g.rangeList[..i])
        invariant i == 0 ==> pos == 0
        invariant i > 0 ==> UpTo(rangeList, pos, g.rangeList[i - 1].first)
      {
        var r := g.rangeList[i];
        assert i > 0 ==> g.rangeList[i - 1].last < r.first;
        pos := DeleteAt(r, pos);
        assert g.rangeList[..i + 1] == g.rangeList[..i] + [r];
        MembersSnoc(g.rangeList[..i], r);
      }
      assert g.rangeList[..|g.rangeList|] == g.rangeList;
    }

    // ----- queries -----

    /** Range-by-range comparison decides equality of the two sets. */
    method Equals(g: Group) returns (same: bool)
      requires Valid() && g.Valid()
      ensures same <==> Set() == g.Set()
    {
      CanonicalUnique(rangeList, g.rangeList);
      if |rangeList| != |g.rangeList| {
        return false;
      }
      for i := 0 to |rangeList|
        invariant rangeList[..i] == g.rangeList[..i]
      {
        if rangeList[i] != g.rangeList[i] {
          return false;
        }
      }
      assert rangeList == rangeList[..|rangeList|] && g.rangeList == g.rangeList[..|g.rangeList|];
      return true;
    }

    method HasMember(id: int) returns (found: bool)
      requires Valid()
      ensures found <==> id in Set()
    {
      MembersIff(rangeList, id);
      for i := 0 to |rangeList|
        invariant forall k :: 0 <= k < i ==> !rangeList[k].Has(id)
      {
        if id < rangeList[i].last && id >= rangeList[i].first {
          return true;
        }
      }
      return false;
    }

    /** The position of a member is the number of smaller members. */
    method Index(id: int) returns (index: nat)
      requires Valid() && id in Set()
      ensures index < |Enumerate(Set())| && Enumerate(Set())[index] == id
      ensures index == |Smaller(Set(), id)|
    {
      ghost var s := rangeList;
      RankIsPosition(s, id);
      index := 0;
      var i := 0;
      while true
        invariant 0 <= i <= |s| && id in Members(s[i..])
        invariant index + Rank(s[i..], id) == Rank(s, id)
        decreases |s| - i
      {
        MembersBounds(s[i..], id);
        var r := rangeList[i];
        assert s[i..][0] == r && s[i..][1..] == s[i + 1..];
        if id < r.last {
          return index + (id - r.first);
        }
        index := index + (r.last - r.first);
        i := i + 1;
      }
    }

    method Size() returns (n: nat)
      requires Valid()
      ensures n == |Set()|
    {
      ListingIsEnumeration(rangeList);
      n := 0;
      for i := 0 to |rangeList|
        invariant n + |Listing(rangeList[i..])| == |Listing(rangeList)|
      {
        assert rangeList[i..][1..] == rangeList[i + 1..];
        n := n + (rangeList[i].last - rangeList[i].first);
      }
    }
  }

  /** The number of ids below `id` in a list that holds it. */
  ghost function Rank(s: seq<Range>, id: int): nat {
    if s == [] || id < s[0].first then 0
    else if id < s[0].last then id - s[0].first
    else |Span(s[0].first, s[0].last)| + Rank(s[1..], id)
  }

  lemma {:induction false} RankCorrect(s: seq<Range>, id: int)
    requires Canonical(s) && id in Members(s)
    ensures Rank(s, id) < |Listing(s)| && Listing(s)[Rank(s, id)] == id
  {
    MembersBounds(s, id);
    if id >= s[0].last {
      RankCorrect(s[1..], id);
    }
  }

  lemma RankIsPosition(s: seq<Range>, id: int)
    requires Canonical(s) && id in Members(s)
    ensures var q, k := Enumerate(Members(s)), Rank(s, id);
            k < |q| && q[k] == id && k == |Smaller(Members(s), id)|
  {
    RankCorrect(s, id);
    ListingIsEnumeration(s);
    RankInEnumeration(Members(s), Rank(s, id));
  }

  ghost function Smaller(s: set<int>, x: int): set<int> {
    set y | y in s && y < x
  }

  /** The element at position `k` of the ascending enumeration has exactly `k` elements below it. */
  lemma RankInEnumeration(s: set<int>, k: nat)
    requires k < |Enumerate(s)|
    ensures |Smaller(s, Enumerate(s)[k])| == k
  {
    var q := Enumerate(s);
    EnumerateAscends(s);
    forall y | y in s && y < q[k]
      ensures y in q[..k]
    {
      assert y in Elements(q);
      var j :| 0 <= j < |q| && q[j] == y;
      assert q[..k][j] == y;
    }
    forall y | y in q[..k]
      ensures y in s
    {
      assert y in Elements(q);
    }
    assert Smaller(s, q[k]) == Elements(q[..k]);
    AscendingLength(q[..k]);
  }

  ghost function RemainingFrom(ranges: seq<Range>, f: nat, c: int): seq<int>
    requires f <= |ranges|
  {
    if f == |ranges| then [] else Span(c, ranges[f].last) + Listing(ranges[f + 1..])
  }

  lemma RemainingStep(ranges: seq<Range>, f: nat, c: int)
    requires f < |ranges| && ranges[f].Has(c)
    ensures RemainingFrom(ranges, f, c) == [c] +
              if c + 1 < ranges[f].last then RemainingFrom(ranges, f, c + 1)
              else RemainingFrom(ranges, f + 1, if f + 1 < |ranges| then ranges[f + 1].first else -1)
  {
    var rest := Listing(ranges[f + 1..]);
    SpanStep(c, ranges[f].last);
    assert [c] + Span(c + 1, ranges[f].last) + rest == [c] + (Span(c + 1, ranges[f].last) + rest);
    assert c + 1 == ranges[f].last ==> [c] + Span(c + 1, ranges[f].last) + rest == [c] + rest;
    if f + 1 < |ranges| {
      assert ranges[f + 1..][0] == ranges[f + 1] && ranges[f + 1..][1..] == ranges[f + 2..];
    }
  }

  /** `Group::iterator`: a position in the range list and the current id. */
  class GroupIterator {
    const ranges: seq<Range>
    var firstRange: nat
    var clientId: int

    ghost predicate Valid()
      reads this
    {
      && Canonical(ranges) && firstRange <= |ranges|
      && (firstRange < |ranges| ==> ranges[firstRange].Has(clientId))
    }

    /** The ids not yet delivered, in the order they will be. */
    ghost function Remaining(): seq<int>
      requires firstRange <= |ranges|
      reads this
    {
      RemainingFrom(ranges, firstRange, clientId)
    }

    constructor (g: Group)
      requires g.Valid()
      ensures Valid() && ranges == g.rangeList && Remaining() == Enumerate(g.Set())
    {
      ranges := g.rangeList;
      firstRange := 0;
      clientId := if |g.rangeList| != 0 then g.rangeList[0].first else -1;
      new;
      ListingIsEnumeration(ranges);
    }

    /** One increment drops exactly the current id from what is still to come. */
    method Next()
      requires Valid() && firstRange != |ranges|
      modifies this
      ensures Valid() && old(Remaining()) == [old(clientId)] + Remaining()
    {
      hide RemainingFrom;
      RemainingStep(ranges, firstRange, clientId);
      clientId := clientId + 1;
      if clientId == ranges[firstRange].last {
        firstRange := firstRange + 1;
        clientId := if firstRange != |ranges| then ranges[firstRange].first else -1;
      }
    }
  }

  lemma DropOne(all: seq<int>, n: nat, c: int, rest: seq<int>)
    requires n <= |all| && all[n..] == [c] + rest
    ensures n < |all| && all[..n] + [c] == all[..n + 1] && rest == all[n + 1..]
  {
    assert all[n] == all[n..][0] && rest == all[n..][1..];
  }

  /** The iteration loop every caller writes: each member once, ascending, in as many rounds as there are members. */
  method Iterate(g: Group) returns (ids: seq<int>, ghost rounds: nat)
    requires g.Valid()
    ensures ids == Enumerate(g.Set())
    ensures rounds == |g.Set()|
  {
    ghost var all := Enumerate(g.Set());
    EnumerateLength(g.Set());
    var it := new GroupIterator(g);
    ids, rounds := [], 0;
    while it.firstRange != |it.ranges|
      invariant it.Valid() && fresh(it)
      invariant |ids| + |it.Remaining()| == |all| && rounds == |ids|
      invariant ids == all[..|ids|] && it.Remaining() == all[|ids|..]
      decreases |it.Remaining()|
    {
      ghost var n, c := |ids|, it.clientId;
      ids := ids + [it.clientId];
      it.Next();
      DropOne(all, n, c, it.Remaining());
      rounds := rounds + 1;
    }
    assert ids == all;
  }
}
