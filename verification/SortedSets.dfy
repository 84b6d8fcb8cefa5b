/** The ascending enumeration of a finite set of ids: the order in which `std::map` visits its keys. */
module SortedSets {

  ghost predicate Ascending(q: seq<int>) {
    forall i, j :: 0 <= i < j < |q| ==> q[i] < q[j]
  }

  function Elements(q: seq<int>): set<int> {
    set x | x in q
  }

  lemma NonEmptyHasMember(s: set<int>)
    requires s != {}
    ensures exists x :: x in s
  {
    if forall x :: x !in s { assert false; }
  }

  lemma {:induction false} LeastExists(s: set<int>)
    requires s != {}
    ensures exists x :: x in s && forall y :: y in s ==> x <= y
    decreases s
  {
    NonEmptyHasMember(s);
    var x :| x in s;
    if s - {x} != {} {
      LeastExists(s - {x});
      var m :| m in s - {x} && forall y :: y in s - {x} ==> m <= y;
      var l := if m < x then m else x;
      assert forall y :: y in s ==> y == x || y in s - {x};
      assert l in s && forall y :: y in s ==> l <= y;
    } else {
      assert forall y :: y in s ==> y == x || y in s - {x};
    }
  }

  function Least(s: set<int>): (m: int)
    requires s != {}
    ensures m in s && forall y :: y in s ==> m <= y
  {
    LeastExists(s);
    var m :| m in s && forall y :: y in s ==> m <= y;
    m
  }

  function Enumerate(s: set<int>): seq<int>
    decreases s
  {
    if s == {} then [] else
      var m := Least(s);
      [m] + Enumerate(s - {m})
  }

  lemma {:induction false} EnumerateAscends(s: set<int>)
    ensures Ascending(Enumerate(s)) && Elements(Enumerate(s)) == s
    decreases s
  {
    if s != {} {
      var m := Least(s);
      var rest := Enumerate(s - {m});
      EnumerateAscends(s - {m});
      assert forall i :: 0 <= i < |rest| ==> rest[i] in Elements(rest);
      ConsAscends(m, rest);
    }
  }

  lemma ConsAscends(m: int, rest: seq<int>)
    requires Ascending(rest) && forall i :: 0 <= i < |rest| ==> m < rest[i]
    ensures Ascending([m] + rest) && Elements([m] + rest) == {m} + Elements(rest)
  {
  }

  lemma EnumerateMember(s: set<int>, i: nat)
    requires i < |Enumerate(s)|
    ensures Enumerate(s)[i] in s
  {
    EnumerateAscends(s);
    assert Enumerate(s)[i] in Elements(Enumerate(s));
  }

  lemma TailElements(p: seq<int>)
    requires Ascending(p) && p != []
    ensures Elements(p[1..]) == Elements(p) - {p[0]}
  {
    assert p == [p[0]] + p[1..];
  }

  /** An ascending list is determined by the set of its elements. */
  lemma {:induction false} AscendingUnique(p: seq<int>, q: seq<int>)
    requires Ascending(p) && Ascending(q) && Elements(p) == Elements(q)
    ensures p == q
  {
    assert forall i :: 0 <= i < |p| ==> p[i] in Elements(q);
    assert forall i :: 0 <= i < |q| ==> q[i] in Elements(p);
    if p != [] {
      assert p[0] == q[0];
      TailElements(p);
      TailElements(q);
      AscendingUnique(p[1..], q[1..]);
      assert p == [p[0]] + p[1..] && q == [q[0]] + q[1..];
    }
  }

  lemma {:induction false} AscendingLength(q: seq<int>)
    requires Ascending(q)
    ensures |q| == |Elements(q)|
  {
    if q != [] {
      AscendingLength(q[1..]);
      assert Elements(q) == {q[0]} + Elements(q[1..]);
    }
  }

  lemma EnumerateLength(s: set<int>)
    ensures |Enumerate(s)| == |s|
  {
    EnumerateAscends(s);
    AscendingLength(Enumerate(s));
  }
}
