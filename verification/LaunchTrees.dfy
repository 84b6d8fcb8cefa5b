/** The trees that `launch_tree2` and `launch_tree4` build when every agent repeats the launch for its own share. */
module LaunchTrees {
  import opened Groups
  import opened Arithmetic
  import opened Launch
  import opened AgentNumbers

  /** The two schemes that split by ceiling division: even shares, or one back end and then even shares. */
  datatype Scheme = Even | BackEndFirst

  /** Even shares need a fan-out of two to get smaller; with a back end first they always do. */
  predicate Works(sch: Scheme, fanOut: nat) {
    fanOut >= if sch.Even? then 2 else 1
  }

  function Shares(sch: Scheme, n: nat, fanOut: nat): seq<nat>
    requires fanOut >= 1
  {
    if sch.Even? then Steps(n, fanOut) else Steps4(n, fanOut)
  }

  /** Shares that are positive and smaller than the whole, or single. */
  predicate Proper(steps: seq<nat>, n: nat) {
    forall i :: 0 <= i < |steps| ==> 0 < steps[i] && (steps[i] == 1 || steps[i] < n)
  }

  function AgentShares(steps: seq<nat>): nat {
    if steps == [] then 0 else (if steps[0] != 1 then 1 else 0) + AgentShares(steps[1..])
  }

  lemma {:induction false} AgentSharesBound(steps: seq<nat>)
    ensures AgentShares(steps) <= |steps|
  {
    if steps != [] { AgentSharesBound(steps[1..]); }
  }

  lemma SplitProper(sch: Scheme, n: nat, fanOut: nat)
    requires Works(sch, fanOut)
    ensures Proper(Shares(sch, n, fanOut), n) && Sum(Shares(sch, n, fanOut)) == n
    ensures AgentShares(Shares(sch, n, fanOut)) <= fanOut
  {
    var q := Shares(sch, n, fanOut);
    if sch.Even? {
      StepsCover(n, fanOut);
      StepsExact(n, fanOut, 0);
      if n >= 2 { StepsShrink(n, fanOut); }
      AgentSharesBound(q);
    } else if n > 0 {
      Steps4Exact(n, fanOut);
      StepsCover(n - 1, fanOut);
      StepsExact(n - 1, fanOut, 0);
      assert q[1..] == Steps(n - 1, fanOut);
      assert forall i :: 1 <= i < |q| ==> q[i] == Steps(n - 1, fanOut)[i - 1];
      AgentSharesBound(q[1..]);
    }
  }

  /** The tree below agent `a` that is responsible for the back ends `lo .. lo + n - 1`. */
  function Tree(sch: Scheme, a: int, lo: int, n: nat, fanOut: nat): Node
    requires Works(sch, fanOut)
    decreases n, 1, 0
  {
    SplitProper(sch, n, fanOut);
    Agent(a, Children(sch, FirstAgent(a, fanOut), lo, Shares(sch, n, fanOut), fanOut, n))
  }

  function Children(sch: Scheme, next: int, lo: int, steps: seq<nat>, fanOut: nat, n: nat): seq<Node>
    requires Works(sch, fanOut) && Proper(steps, n)
    decreases n, 0, |steps|
  {
    if steps == [] then []
    else if steps[0] == 1 then [BackEnd(lo)] + Children(sch, next, lo + 1, steps[1..], fanOut, n)
    else [Tree(sch, next, lo, steps[0], fanOut)] + Children(sch, next - 1, lo + steps[0], steps[1..], fanOut, n)
  }

  lemma SpanJoin(a: int, b: int, c: int)
    requires a <= b <= c
    ensures Span(a, b) + Span(b, c) == Span(a, c)
  {
  }

  lemma EmptySpan(lo: int)
    ensures Span(lo, lo) == []
  {
  }

  lemma OneSpan(lo: int)
    ensures Span(lo, lo + 1) == [lo]
  {
  }

  /** Every back end is a leaf of the tree exactly once, in order. */
  lemma {:induction false} TreeLeaves(sch: Scheme, a: int, lo: int, n: nat, fanOut: nat)
    requires Works(sch, fanOut)
    ensures Leaves(Tree(sch, a, lo, n, fanOut)) == Span(lo, lo + n)
    decreases n, 1, 0
  {
    hide Shares;
    SplitProper(sch, n, fanOut);
    ChildrenLeaves(sch, FirstAgent(a, fanOut), lo, Shares(sch, n, fanOut), fanOut, n);
  }

  lemma {:induction false} ChildrenLeaves(sch: Scheme, next: int, lo: int, steps: seq<nat>, fanOut: nat, n: nat)
    requires Works(sch, fanOut) && Proper(steps, n)
    ensures LeavesOf(Children(sch, next, lo, steps, fanOut, n)) == Span(lo, lo + Sum(steps))
    decreases n, 0, |steps|
  {
    hide Tree, Span;
    if steps == [] {
      EmptySpan(lo);
    } else {
      var s, rest := steps[0], steps[1..];
      SpanJoin(lo, lo + s, lo + Sum(steps));
      if s == 1 {
        ChildrenLeaves(sch, next, lo + 1, rest, fanOut, n);
        OneSpan(lo);
        ConsLeaves(BackEnd(lo), Children(sch, next, lo + 1, rest, fanOut, n));
      } else {
        TreeLeaves(sch, next, lo, s, fanOut);
        ChildrenLeaves(sch, next - 1, lo + s, rest, fanOut, n);
        ConsLeaves(Tree(sch, next, lo, s, fanOut), Children(sch, next - 1, lo + s, rest, fanOut, n));
      }
    }
  }

  // ----- depth -----

  /** How many back ends fit in `d` levels. */
  function Capacity(sch: Scheme, fanOut: nat, d: nat): nat {
    if d == 0 then 1 else (if sch.Even? then 0 else 1) + fanOut * Capacity(sch, fanOut, d - 1)
  }

  lemma {:induction false} EvenCapacity(fanOut: nat, d: nat)
    ensures Capacity(Even, fanOut, d) == Pow(fanOut, d)
  {
    if d > 0 { EvenCapacity(fanOut, d - 1); }
  }

  lemma {:induction false} CapacityPositive(sch: Scheme, fanOut: nat, d: nat)
    requires fanOut > 0
    ensures Capacity(sch, fanOut, d) > 0
  {
    if d > 0 { CapacityPositive(sch, fanOut, d - 1); }
  }

  ghost predicate AllWithin(q: seq<nat>, c: nat) {
    forall i :: 0 <= i < |q| ==> q[i] <= c
  }

  lemma ConsWithin(s: nat, q: seq<nat>, c: nat)
    ensures AllWithin([s] + q, c) <==> s <= c && AllWithin(q, c)
  {
    assert forall i :: 0 <= i < |q| ==> ([s] + q)[i + 1] == q[i];
    assert ([s] + q)[0] == s;
  }

  /** The shares fit in one level less exactly when the whole fits. */
  lemma SharesFit(sch: Scheme, n: nat, fanOut: nat, d: nat)
    requires fanOut >= 1 && d >= 1
    ensures AllWithin(Shares(sch, n, fanOut), Capacity(sch, fanOut, d - 1)) <==> n <= Capacity(sch, fanOut, d)
  {
    hide Steps, AllWithin;
    var c := Capacity(sch, fanOut, d - 1);
    CapacityPositive(sch, fanOut, d - 1);
    EvenFit(n, fanOut, c);
    if sch.BackEndFirst? {
      if n > 0 {
        EvenFit(n - 1, fanOut, c);
        ConsWithin(1, Steps(n - 1, fanOut), c);
      } else {
        CapacityPositive(sch, fanOut, d);
        NothingWithin(c);
      }
    }
  }

  lemma NothingWithin(c: nat)
    ensures AllWithin([], c)
  {
  }

  lemma EvenFit(n: nat, fanOut: nat, c: nat)
    requires fanOut >= 1
    ensures AllWithin(Steps(n, fanOut), c) <==> n <= fanOut * c
  {
    hide Steps;
    if n <= fanOut * c {
      ShareBound(n, fanOut, c);
      forall i | 0 <= i < |Steps(n, fanOut)|
        ensures Steps(n, fanOut)[i] <= c
      {
        StepsExact(n, fanOut, i);
      }
    } else {
      StepsExact(n, fanOut, 0);
      LargestShare(n, fanOut, c);
      assert Steps(n, fanOut)[0] > c;
    }
  }

  lemma LargestShare(n: nat, m: nat, c: nat)
    requires m >= 1 && n > m * c
    ensures n > 0 && n / m + (if 0 < n % m then 1 else 0) > c
  {
    var q, r := n / m, n % m;
    assert n == q * m + r;
    MulMonotone(q, c, m);
    MulMonotone(q + 1, c, m);
    assert m * c == c * m && (q + 1) * m == q * m + m;
  }

  /** A tree has at most `d` levels exactly when its back ends fit in them. */
  lemma {:induction false} TreeDepthIff(sch: Scheme, a: int, lo: int, n: nat, fanOut: nat, d: nat)
    requires Works(sch, fanOut) && d >= 1
    ensures Depth(Tree(sch, a, lo, n, fanOut)) <= d <==> n <= Capacity(sch, fanOut, d)
    decreases n, 1, 0
  {
    hide Shares, Capacity;
    SplitProper(sch, n, fanOut);
    SharesFit(sch, n, fanOut, d);
    ChildrenDepthIff(sch, FirstAgent(a, fanOut), lo, Shares(sch, n, fanOut), fanOut, n, d - 1);
  }

  lemma {:induction false} ChildrenDepthIff(sch: Scheme, next: int, lo: int, steps: seq<nat>, fanOut: nat, n: nat,
                                            d: nat)
    requires Works(sch, fanOut) && Proper(steps, n)
    ensures DepthOf(Children(sch, next, lo, steps, fanOut, n)) <= d
            <==> AllWithin(steps, Capacity(sch, fanOut, d))
    decreases n, 0, |steps|
  {
    hide Tree, AllWithin, Depth, DepthOf;
    CapacityPositive(sch, fanOut, d);
    if steps == [] {
      NothingWithin(Capacity(sch, fanOut, d));
      NoDepth();
    } else {
      var s, rest := steps[0], steps[1..];
      assert steps == [s] + rest;
      ConsWithin(s, rest, Capacity(sch, fanOut, d));
      if s == 1 {
        ChildrenDepthIff(sch, next, lo + 1, rest, fanOut, n, d);
        ConsDepth(BackEnd(lo), Children(sch, next, lo + 1, rest, fanOut, n));
        BackEndDepth(lo);
      } else {
        ChildrenDepthIff(sch, next - 1, lo + s, rest, fanOut, n, d);
        ConsDepth(Tree(sch, next, lo, s, fanOut), Children(sch, next - 1, lo + s, rest, fanOut, n));
        if d >= 1 {
          TreeDepthIff(sch, next, lo, s, fanOut, d);
        } else {
          AgentDepth(sch, next, lo, s, fanOut);
        }
      }
    }
  }

  lemma NoDepth()
    ensures DepthOf([]) == 0
  {
  }

  lemma BackEndDepth(id: int)
    ensures Depth(BackEnd(id)) == 0
  {
  }

  lemma AgentDepth(sch: Scheme, a: int, lo: int, n: nat, fanOut: nat)
    requires Works(sch, fanOut)
    ensures Depth(Tree(sch, a, lo, n, fanOut)) >= 1
  {
  }

  // ----- agent ids -----

  /** The agents are numbered as the formula for the first child's id says. */
  lemma {:induction false} TreeNumbered(sch: Scheme, a: int, lo: int, n: nat, fanOut: nat)
    requires Works(sch, fanOut)
    ensures Numbered(Tree(sch, a, lo, n, fanOut), fanOut)
    decreases n, 1, 0
  {
    hide Shares;
    SplitProper(sch, n, fanOut);
    ChildrenNumbered(sch, FirstAgent(a, fanOut), lo, Shares(sch, n, fanOut), fanOut, n);
  }

  lemma {:induction false} ChildrenNumbered(sch: Scheme, next: int, lo: int, steps: seq<nat>, fanOut: nat, n: nat)
    requires Works(sch, fanOut) && Proper(steps, n)
    ensures NumberedFrom(Children(sch, next, lo, steps, fanOut, n), next, fanOut)
    ensures AgentCount(Children(sch, next, lo, steps, fanOut, n)) == AgentShares(steps)
    decreases n, 0, |steps|
  {
    if steps != [] {
      var s, rest := steps[0], steps[1..];
      if s == 1 {
        ChildrenNumbered(sch, next, lo + 1, rest, fanOut, n);
        assert Children(sch, next, lo, steps, fanOut, n)[1..] == Children(sch, next, lo + 1, rest, fanOut, n);
      } else {
        TreeNumbered(sch, next, lo, s, fanOut);
        ChildrenNumbered(sch, next - 1, lo + s, rest, fanOut, n);
        assert Children(sch, next, lo, steps, fanOut, n)[1..] == Children(sch, next - 1, lo + s, rest, fanOut, n);
      }
    }
  }
}
