/** How many back ends it takes for an agent with a given id to be in the tree. */
module AgentThresholds {
  import opened Arithmetic
  import opened Launch
  import opened AgentNumbers
  import opened LaunchTrees

  /** The back ends that are left for even shares. */
  function Pool(sch: Scheme, n: nat): nat {
    if sch.Even? || n == 0 then n else n - 1
  }

  /** The share of the child at position `j`, counted among those that may be agents. */
  function ChildShare(sch: Scheme, n: nat, fanOut: nat, j: nat): nat
    requires fanOut > 0
  {
    Pool(sch, n) / fanOut + if j < Pool(sch, n) % fanOut then 1 else 0
  }

  /** The least number of back ends that leaves `s` of them to the child at position `j`. */
  function Lift(sch: Scheme, fanOut: nat, j: nat, s: nat): int {
    fanOut * (s - 1) + j + 1 + if sch.Even? then 0 else 1
  }

  lemma LiftIff(sch: Scheme, n: nat, fanOut: nat, j: nat, s: nat)
    requires fanOut > 0 && j < fanOut && s >= 2
    ensures ChildShare(sch, n, fanOut, j) >= s <==> n >= Lift(sch, fanOut, j, s)
    ensures Lift(sch, fanOut, j, s) >= 2
  {
    var m := Pool(sch, n);
    var q, r := m / fanOut, m % fanOut;
    ShareIff(m, fanOut, q, r, j, s);
    MulBounds(s - 1, fanOut);
    assert (s - 1) * fanOut == fanOut * (s - 1);
  }

  lemma ShareIff(m: int, fanOut: nat, q: int, r: int, j: nat, s: nat)
    requires m == q * fanOut + r && 0 <= r < fanOut && j < fanOut
    ensures q + (if j < r then 1 else 0) >= s <==> m >= (s - 1) * fanOut + j + 1
  {
    ProductGap(q, s - 1, fanOut);
  }

  lemma ProductGap(q: int, p: int, f: nat)
    ensures q > p ==> q * f >= p * f + f
    ensures q == p ==> q * f == p * f
    ensures q < p ==> q * f + f <= p * f
  {
    if q > p { MulMonotone(p + 1, q, f); }
    if q < p { MulMonotone(q + 1, p, f); }
  }

  /** The least number of back ends below index `m` that leaves `s` of them below index `p`. */
  function Enough(sch: Scheme, fanOut: nat, m: int, p: int, s: nat): (n: nat)
    requires fanOut > 0 && m >= 0 && s >= 2
    ensures n >= 2
    decreases p
  {
    if p <= m then s
    else
      ParentSmaller(p, fanOut);
      LiftIff(sch, 0, fanOut, (p - 1) % fanOut, s);
      Enough(sch, fanOut, m, ParentIndex(p, fanOut), Lift(sch, fanOut, (p - 1) % fanOut, s))
  }

  lemma EnoughStep(sch: Scheme, fanOut: nat, m: int, p: int, s: nat)
    requires fanOut > 0 && 0 <= m < p && s >= 2
    ensures Lift(sch, fanOut, (p - 1) % fanOut, s) >= 2
    ensures Enough(sch, fanOut, m, p, s)
            == Enough(sch, fanOut, m, ParentIndex(p, fanOut), Lift(sch, fanOut, (p - 1) % fanOut, s))
  {
    LiftIff(sch, 0, fanOut, (p - 1) % fanOut, s);
  }

  lemma EnoughHere(sch: Scheme, fanOut: nat, m: int, s: nat)
    requires fanOut > 0 && 0 <= m && s >= 2
    ensures Enough(sch, fanOut, m, m, s) == s
  {
  }

  /** The child of `m` on the way to `p`. */
  lemma {:induction false} PathChild(m: int, p: int, fanOut: nat) returns (c: int)
    requires fanOut > 0 && m >= 0 && Under(m, p, fanOut) && p != m
    ensures c >= 1 && ParentIndex(c, fanOut) == m && Under(c, p, fanOut)
    decreases p
  {
    ParentSmaller(p, fanOut);
    if ParentIndex(p, fanOut) == m {
      c := p;
    } else {
      c := PathChild(m, ParentIndex(p, fanOut), fanOut);
      UnderAtMost(c, ParentIndex(p, fanOut), fanOut);
    }
  }

  lemma UnderAtMost(m: int, p: int, fanOut: nat)
    requires fanOut > 0 && Under(m, p, fanOut)
    ensures m <= p
  {
  }

  lemma {:induction false} UnderRoot(p: int, fanOut: nat)
    requires fanOut > 0 && p >= 0
    ensures Under(0, p, fanOut)
    decreases p
  {
    if p > 0 {
      ParentSmaller(p, fanOut);
      UnderRoot(ParentIndex(p, fanOut), fanOut);
    }
  }

  /** Through the child `c` of `m`. */
  lemma {:induction false} EnoughThrough(sch: Scheme, fanOut: nat, m: int, c: int, p: int, s: nat)
    requires fanOut > 0 && m >= 0 && s >= 2 && c >= 1 && ParentIndex(c, fanOut) == m && Under(c, p, fanOut)
    ensures Enough(sch, fanOut, m, p, s) == Lift(sch, fanOut, (c - 1) % fanOut, Enough(sch, fanOut, c, p, s))
    decreases p
  {
    hide Lift;
    ParentSmaller(c, fanOut);
    UnderAtMost(c, p, fanOut);
    ParentSmaller(p, fanOut);
    LiftIff(sch, 0, fanOut, (p - 1) % fanOut, s);
    if p > c {
      EnoughThrough(sch, fanOut, m, c, ParentIndex(p, fanOut), Lift(sch, fanOut, (p - 1) % fanOut, s));
    }
  }

  // ----- children with a share of at least two -----

  ghost predicate Descending(steps: seq<nat>) {
    forall i, j :: 0 <= i < j < |steps| ==> steps[i] >= steps[j]
  }

  lemma StepsDescend(n: nat, out: nat)
    requires out > 0
    ensures Descending(Steps(n, out))
  {
    var q := Steps(n, out);
    forall i, j | 0 <= i < j < |q|
      ensures q[i] >= q[j]
    {
      StepsExact(n, out, i);
      StepsExact(n, out, j);
    }
  }

  lemma DescendingTail(steps: seq<nat>)
    requires Descending(steps) && steps != []
    ensures Descending(steps[1..]) && forall j :: 0 <= j < |steps[1..]| ==> steps[1..][j] <= steps[0]
  {
  }

  lemma {:induction false} FromChild(sch: Scheme, next: int, lo: int, steps: seq<nat>, fanOut: nat, n: nat, x: int)
    returns (j: nat, at: int)
    requires Works(sch, fanOut) && Proper(steps, n) && Descending(steps)
    requires x in AgentsOf(Children(sch, next, lo, steps, fanOut, n))
    ensures j < |steps| && steps[j] >= 2 && x in Agents(Tree(sch, next - j, at, steps[j], fanOut))
    decreases |steps|
  {
    hide Tree, Descending;
    var s, rest := steps[0], steps[1..];
    DescendingTail(steps);
    if s == 1 {
      AgentsCons(BackEnd(lo), Children(sch, next, lo + 1, rest, fanOut, n));
      j, at := FromChild(sch, next, lo + 1, rest, fanOut, n, x);
      assert false;
    } else {
      AgentsCons(Tree(sch, next, lo, s, fanOut), Children(sch, next - 1, lo + s, rest, fanOut, n));
      if x in Agents(Tree(sch, next, lo, s, fanOut)) {
        j, at := 0, lo;
      } else {
        j, at := FromChild(sch, next - 1, lo + s, rest, fanOut, n, x);
        j := j + 1;
      }
    }
  }

  lemma {:induction false} ToChild(sch: Scheme, next: int, lo: int, steps: seq<nat>, fanOut: nat, n: nat, k: nat)
    returns (at: int)
    requires Works(sch, fanOut) && Proper(steps, n) && Descending(steps) && k < |steps| && steps[k] >= 2
    ensures forall x :: x in Agents(Tree(sch, next - k, at, steps[k], fanOut)) ==>
                          x in AgentsOf(Children(sch, next, lo, steps, fanOut, n))
    decreases |steps|
  {
    hide Tree, Descending;
    var s, rest := steps[0], steps[1..];
    DescendingTail(steps);
    assert k > 0 ==> rest[k - 1] == steps[k] <= s;
    AgentsCons(Tree(sch, next, lo, s, fanOut), Children(sch, next - 1, lo + s, rest, fanOut, n));
    if k == 0 {
      at := lo;
    } else {
      at := ToChild(sch, next - 1, lo + s, rest, fanOut, n, k - 1);
    }
  }

  lemma AgentsCons(t: Node, ts: seq<Node>)
    ensures AgentsOf([t] + ts) == Agents(t) + AgentsOf(ts)
    ensures t.BackEnd? ==> Agents(t) == []
  {
    assert ([t] + ts)[1..] == ts;
  }

  /** The agents below the root are those of the even shares. */
  lemma EvenPart(sch: Scheme, a: int, lo: int, n: nat, fanOut: nat) returns (at: int)
    requires Works(sch, fanOut)
    ensures Proper(Steps(Pool(sch, n), fanOut), n)
    ensures Tree(sch, a, lo, n, fanOut).Agent? && Tree(sch, a, lo, n, fanOut).id == a
    ensures AgentsOf(Tree(sch, a, lo, n, fanOut).children)
            == AgentsOf(Children(sch, FirstAgent(a, fanOut), at, Steps(Pool(sch, n), fanOut), fanOut, n))
  {
    SplitProper(sch, n, fanOut);
    var steps, next := Shares(sch, n, fanOut), FirstAgent(a, fanOut);
    if sch.Even? || n == 0 {
      at := lo;
    } else {
      at := lo + 1;
      var rest := Steps(n - 1, fanOut);
      assert steps == [1] + rest && steps[1..] == rest;
      assert forall i :: 0 <= i < |rest| ==> rest[i] == steps[i + 1];
      AgentsCons(BackEnd(lo), Children(sch, next, at, rest, fanOut, n));
      assert [] + AgentsOf(Children(sch, next, at, rest, fanOut, n))
             == AgentsOf(Children(sch, next, at, rest, fanOut, n));
    }
  }

  // ----- the threshold -----

  lemma ShareAt(sch: Scheme, n: nat, fanOut: nat, j: nat)
    requires fanOut > 0 && j < fanOut
    ensures ChildShare(sch, n, fanOut, j) >= 1 ==>
              j < |Steps(Pool(sch, n), fanOut)| && Steps(Pool(sch, n), fanOut)[j] == ChildShare(sch, n, fanOut, j)
    ensures j < |Steps(Pool(sch, n), fanOut)| ==> Steps(Pool(sch, n), fanOut)[j] == ChildShare(sch, n, fanOut, j)
    ensures |Steps(Pool(sch, n), fanOut)| <= fanOut
  {
    hide Steps;
    var m := Pool(sch, n);
    StepsExact(m, fanOut, j);
    if m < fanOut { DivModUnique(m, fanOut, 0, m); }
  }

  /** The position of the child with index `c`, and its id. */
  lemma ChildOf(a: int, c: int, fanOut: nat) returns (j: nat)
    requires fanOut > 0 && a <= -1 && c >= 1 && ParentIndex(c, fanOut) == Index(a)
    ensures j == (c - 1) % fanOut && j < fanOut && Index(FirstAgent(a, fanOut) - j) == c
    ensures FirstAgent(a, fanOut) - j <= -1
  {
    j := (c - 1) % fanOut;
    assert c - 1 == (c - 1) / fanOut * fanOut + j;
    ChildIndex(a, fanOut, j);
    ChildNegative(a, fanOut, j);
  }

  /** An agent below the child at position `j` is below no other child. */
  lemma SameChild(sch: Scheme, a: int, j: nat, k: nat, at: int, n: nat, fanOut: nat, x: int)
    requires Works(sch, fanOut) && a <= -1 && j < fanOut && k < fanOut
    requires Under(Index(FirstAgent(a, fanOut) - j), Index(x), fanOut)
    requires x in Agents(Tree(sch, FirstAgent(a, fanOut) - k, at, n, fanOut))
    ensures j == k
  {
    hide Tree, Under, Agents;
    var first := FirstAgent(a, fanOut);
    ChildIndex(a, fanOut, j);
    ChildIndex(a, fanOut, k);
    ChildNegative(a, fanOut, k);
    TreeNumbered(sch, first - k, at, n, fanOut);
    RootOf(sch, first - k, at, n, fanOut);
    TreeUnder(Tree(sch, first - k, at, n, fanOut), fanOut, x);
    MulBounds(Index(a), fanOut);
    if j != k { SiblingsApart(Index(first - j), Index(first - k), Index(x), fanOut); }
  }

  lemma RootOf(sch: Scheme, a: int, lo: int, n: nat, fanOut: nat)
    requires Works(sch, fanOut)
    ensures Tree(sch, a, lo, n, fanOut).Agent? && Tree(sch, a, lo, n, fanOut).id == a
    ensures Agents(Tree(sch, a, lo, n, fanOut)) == [a] + AgentsOf(Tree(sch, a, lo, n, fanOut).children)
  {
  }

  /** An id that may occur below agent `a` does so exactly when there are enough back ends. */
  lemma {:induction false} AgentIff(sch: Scheme, a: int, lo: int, n: nat, fanOut: nat, x: int)
    requires Works(sch, fanOut) && a <= -1 && x != a && Under(Index(a), Index(x), fanOut)
    ensures x in Agents(Tree(sch, a, lo, n, fanOut)) <==> n >= Enough(sch, fanOut, Index(a), Index(x), 2)
    decreases n
  {
    hide Tree, Under, Enough, Children, Agents, Steps, Pool, ChildShare, Lift;
    var c := PathChild(Index(a), Index(x), fanOut);
    var j := ChildOf(a, c, fanOut);
    var child, share, least := FirstAgent(a, fanOut) - j, ChildShare(sch, n, fanOut, j),
      Enough(sch, fanOut, c, Index(x), 2);
    EnoughThrough(sch, fanOut, Index(a), c, Index(x), 2);
    LiftIff(sch, n, fanOut, j, least);
    RootOf(sch, a, lo, n, fanOut);
    var at := EvenPart(sch, a, lo, n, fanOut);
    var steps := Steps(Pool(sch, n), fanOut);
    StepsDescend(Pool(sch, n), fanOut);
    ShareAt(sch, n, fanOut, j);
    if x in Agents(Tree(sch, a, lo, n, fanOut)) {
      var k, at' := FromChild(sch, FirstAgent(a, fanOut), at, steps, fanOut, n, x);
      ShareAt(sch, n, fanOut, 0);
      SameChild(sch, a, j, k, at', steps[k], fanOut, x);
      BelowChild(sch, child, at', steps[j], fanOut, x, n);
    }
    if share >= least {
      var at' := ToChild(sch, FirstAgent(a, fanOut), at, steps, fanOut, n, j);
      BelowChild(sch, child, at', steps[j], fanOut, x, n);
    }
  }

  lemma {:induction false} BelowChild(sch: Scheme, a: int, lo: int, share: nat, fanOut: nat, x: int, n: nat)
    requires Works(sch, fanOut) && a <= -1 && Under(Index(a), Index(x), fanOut) && 2 <= share < n
    ensures x in Agents(Tree(sch, a, lo, share, fanOut)) <==> share >= Enough(sch, fanOut, Index(a), Index(x), 2)
    decreases n, 0
  {
    hide Tree, Under, Agents;
    if x == a { RootOf(sch, a, lo, share, fanOut); } else { AgentIff(sch, a, lo, share, fanOut, x); }
  }

  /** The number of back ends from which on the tree has an agent with this id. */
  function Threshold(sch: Scheme, fanOut: nat, x: int): nat
    requires fanOut > 0
  {
    Enough(sch, fanOut, 0, Index(x), 2)
  }

  lemma ThresholdExact(sch: Scheme, lo: int, n: nat, fanOut: nat, x: int)
    requires Works(sch, fanOut) && x < -1
    ensures x in Agents(Tree(sch, -1, lo, n, fanOut)) <==> n >= Threshold(sch, fanOut, x)
  {
    hide Tree, Under, Enough, Agents;
    UnderRoot(Index(x), fanOut);
    AgentIff(sch, -1, lo, n, fanOut, x);
  }

  // ----- with fan-out two -----

  lemma LeftmostStep(u: int, s: nat)
    requires u >= 1 && s >= 2
    ensures Enough(Even, 2, 0, 2 * u - 1, s) == Enough(Even, 2, 0, u - 1, 2 * s - 1)
  {
    hide Enough;
    assert (2 * u - 2) / 2 == u - 1 && (2 * u - 2) % 2 == 0;
    EnoughStep(Even, 2, 0, 2 * u - 1, s);
  }

  lemma Doubled(u: int, s: int)
    ensures u * (2 * s - 2) == 2 * u * (s - 1)
  {
  }

  /** On the leftmost path of even halves. */
  lemma {:induction false} LeftmostEnough(k: nat, s: nat)
    requires s >= 2
    ensures Enough(Even, 2, 0, Pow(2, k) - 1, s) == Pow(2, k) * (s - 1) + 1
    decreases k
  {
    hide Enough;
    if k == 0 {
      EnoughHere(Even, 2, 0, s);
    } else {
      PowPositive(2, k - 1);
      LeftmostStep(Pow(2, k - 1), s);
      LeftmostEnough(k - 1, 2 * s - 1);
      Doubled(Pow(2, k - 1), s);
    }
  }

  lemma PowTen()
    ensures Pow(2, 10) == 1024 && Pow(2, 20) == 1048576 && Pow(2, 30) == 1073741824
  {
    PowSplit(10, 10);
    PowSplit(10, 20);
  }

  lemma {:induction false} PowSplit(i: nat, j: nat)
    ensures Pow(2, i + j) == Pow(2, i) * Pow(2, j)
    decreases i
  {
    if i > 0 { PowSplit(i - 1, j); }
  }
}
