/** Trees of agents and back ends: leaves, depth, and the numbering of the agents. */
module AgentNumbers {
  import opened Arithmetic
  import opened Launch

  datatype Node = BackEnd(id: int) | Agent(id: int, children: seq<Node>)

  function Leaves(t: Node): seq<int>
    decreases t, 1
  {
    match t
    case BackEnd(id) => [id]
    case Agent(_, children) => LeavesOf(children)
  }

  function LeavesOf(ts: seq<Node>): seq<int>
    decreases ts, 0
  {
    if ts == [] then [] else Leaves(ts[0]) + LeavesOf(ts[1..])
  }

  lemma ConsLeaves(t: Node, ts: seq<Node>)
    ensures LeavesOf([t] + ts) == Leaves(t) + LeavesOf(ts)
  {
    assert ([t] + ts)[1..] == ts;
  }

  // ----- depth -----

  function Max(a: nat, b: nat): nat {
    if a > b then a else b
  }

  /** The levels of agents, which is the number of hops to the farthest back end. */
  function Depth(t: Node): nat
    decreases t, 1
  {
    match t
    case BackEnd(_) => 0
    case Agent(_, children) => 1 + DepthOf(children)
  }

  function DepthOf(ts: seq<Node>): nat
    decreases ts, 0
  {
    if ts == [] then 0 else Max(Depth(ts[0]), DepthOf(ts[1..]))
  }

  lemma ConsDepth(t: Node, ts: seq<Node>)
    ensures DepthOf([t] + ts) == Max(Depth(t), DepthOf(ts))
  {
    assert ([t] + ts)[1..] == ts;
  }

  // ----- agents -----

  function Agents(t: Node): seq<int>
    decreases t, 1
  {
    match t
    case BackEnd(_) => []
    case Agent(id, children) => [id] + AgentsOf(children)
  }

  function AgentsOf(ts: seq<Node>): seq<int>
    decreases ts, 0
  {
    if ts == [] then [] else Agents(ts[0]) + AgentsOf(ts[1..])
  }

  // ----- numbering -----

  /** The id of an agent's first child agent; later children count down from it. */
  function FirstAgent(a: int, fanOut: nat): int {
    (a + 1) * fanOut - 2
  }

  /** Agent ids are a heap numbering in disguise: the root -1 has index 0, the children of index m follow m * fanOut. */
  function Index(a: int): int {
    -a - 1
  }

  function ParentIndex(m: int, fanOut: nat): int
    requires fanOut > 0
  {
    (m - 1) / fanOut
  }

  lemma ChildIndex(a: int, fanOut: nat, j: nat)
    requires fanOut > 0 && j < fanOut && a <= -1
    ensures Index(FirstAgent(a, fanOut) - j) == Index(a) * fanOut + 1 + j
    ensures ParentIndex(Index(FirstAgent(a, fanOut) - j), fanOut) == Index(a)
    ensures Index(FirstAgent(a, fanOut) - j) > Index(a)
  {
    assert (a + 1) * fanOut == -(Index(a) * fanOut);
    DivModUnique(Index(a) * fanOut + j, fanOut, Index(a), j);
    MulBounds(Index(a), fanOut);
  }

  lemma ParentSmaller(m: int, fanOut: nat)
    requires fanOut > 0 && m >= 1
    ensures 0 <= ParentIndex(m, fanOut) < m
  {
    var q, r := (m - 1) / fanOut, (m - 1) % fanOut;
    assert m - 1 == q * fanOut + r && 0 <= r;
    MulBounds(q, fanOut);
  }

  /** Index `x` lies in the subtree of index `m`. */
  ghost predicate Under(m: int, x: int, fanOut: nat)
    requires fanOut > 0
    decreases x
  {
    x == m || (x > m && x >= 1 && (ParentSmaller(x, fanOut); Under(m, ParentIndex(x, fanOut), fanOut)))
  }

  lemma {:induction false} UnderTrans(m: int, k: int, x: int, fanOut: nat)
    requires fanOut > 0 && m < k && k >= 1 && Under(m, k, fanOut) && Under(k, x, fanOut)
    ensures Under(m, x, fanOut)
    decreases x
  {
    if x != k {
      ParentSmaller(x, fanOut);
      UnderTrans(m, k, ParentIndex(x, fanOut), fanOut);
    }
  }

  /** Two ancestors of the same index lie on one path. */
  lemma {:induction false} AncestorsOrdered(m: int, k: int, x: int, fanOut: nat)
    requires fanOut > 0 && m < k && Under(m, x, fanOut) && Under(k, x, fanOut)
    ensures Under(m, k, fanOut)
    decreases x
  {
    if x != k {
      ParentSmaller(x, fanOut);
      AncestorsOrdered(m, k, ParentIndex(x, fanOut), fanOut);
    }
  }

  /** Subtrees of different siblings have nothing in common. */
  lemma SiblingsApart(m: int, k: int, x: int, fanOut: nat)
    requires fanOut > 0 && 1 <= m && 1 <= k && m != k && ParentIndex(m, fanOut) == ParentIndex(k, fanOut)
    ensures !(Under(m, x, fanOut) && Under(k, x, fanOut))
  {
    if Under(m, x, fanOut) && Under(k, x, fanOut) {
      ParentSmaller(m, fanOut);
      ParentSmaller(k, fanOut);
      if m < k { AncestorsOrdered(m, k, x, fanOut); } else { AncestorsOrdered(k, m, x, fanOut); }
      assert false;
    }
  }

  /** How many of these children are agents. */
  function AgentCount(ts: seq<Node>): nat {
    if ts == [] then 0 else (if ts[0].Agent? then 1 else 0) + AgentCount(ts[1..])
  }

  /** At most fanOut child agents, numbered downwards from the first child's id, and so on below them. */
  predicate Numbered(t: Node, fanOut: nat)
    decreases t, 1
  {
    t.Agent? ==> AgentCount(t.children) <= fanOut && NumberedFrom(t.children, FirstAgent(t.id, fanOut), fanOut)
  }

  predicate NumberedFrom(ts: seq<Node>, next: int, fanOut: nat)
    decreases ts, 0
  {
    if ts == [] then true
    else if ts[0].BackEnd? then NumberedFrom(ts[1..], next, fanOut)
    else ts[0].id == next && Numbered(ts[0], fanOut) && NumberedFrom(ts[1..], next - 1, fanOut)
  }

  lemma NoneNumbered(next: int, fanOut: nat)
    ensures AgentCount([]) == 0 && NumberedFrom([], next, fanOut)
  {
  }

  lemma ConsNumbered(t: Node, ts: seq<Node>, fanOut: nat)
    requires t.Agent? && Numbered(t, fanOut) && NumberedFrom(ts, t.id - 1, fanOut)
    ensures AgentCount([t] + ts) == 1 + AgentCount(ts) && NumberedFrom([t] + ts, t.id, fanOut)
  {
    assert ([t] + ts)[1..] == ts;
  }

  /** Every agent of a tree has an index in the subtree of the root's index. */
  lemma {:induction false} TreeUnder(t: Node, fanOut: nat, x: int)
    requires fanOut > 0 && t.Agent? && t.id <= -1 && Numbered(t, fanOut) && x in Agents(t)
    ensures Under(Index(t.id), Index(x), fanOut)
    decreases t, 1
  {
    if x != t.id {
      var j := ChildrenUnder(t.children, t.id, 0, fanOut, x);
      ChildIndex(t.id, fanOut, j);
      UnderTrans(Index(t.id), Index(FirstAgent(t.id, fanOut) - j), Index(x), fanOut);
    }
  }

  /** ... in the subtree of one of the child agents of `a`, numbered from `k` on. */
  lemma {:induction false} ChildrenUnder(ts: seq<Node>, a: int, k: nat, fanOut: nat, x: int) returns (j: nat)
    requires fanOut > 0 && a <= -1 && k + AgentCount(ts) <= fanOut
    requires NumberedFrom(ts, FirstAgent(a, fanOut) - k, fanOut) && x in AgentsOf(ts)
    ensures k <= j < k + AgentCount(ts) && Under(Index(FirstAgent(a, fanOut) - j), Index(x), fanOut)
    decreases ts, 0
  {
    if ts[0].Agent? && x in Agents(ts[0]) {
      j := k;
      ChildNegative(a, fanOut, k);
      TreeUnder(ts[0], fanOut, x);
    } else {
      j := ChildrenUnder(ts[1..], a, if ts[0].Agent? then k + 1 else k, fanOut, x);
    }
  }

  lemma ChildNegative(a: int, fanOut: nat, j: nat)
    requires fanOut > 0 && j < fanOut && a <= -1
    ensures FirstAgent(a, fanOut) - j <= -1
  {
    ChildIndex(a, fanOut, j);
    MulBounds(Index(a), fanOut);
  }

  ghost predicate NoDups(q: seq<int>) {
    forall i, j :: 0 <= i < j < |q| ==> q[i] != q[j]
  }

  lemma NoDupsConcat(p: seq<int>, q: seq<int>)
    requires NoDups(p) && NoDups(q) && forall x :: x in p ==> x !in q
    ensures NoDups(p + q)
  {
    var u := p + q;
    assert forall i :: 0 <= i < |p| ==> u[i] in p;
    assert forall i :: |p| <= i < |u| ==> u[i] in q;
  }

  /** No two agents of a numbered tree have the same id. */
  lemma {:induction false} AgentIdsUnique(t: Node, fanOut: nat)
    requires fanOut > 0 && t.Agent? && t.id <= -1 && Numbered(t, fanOut)
    ensures NoDups(Agents(t))
    decreases t, 1
  {
    var ts := t.children;
    ChildIdsUnique(ts, t.id, 0, fanOut);
    forall x | x in AgentsOf(ts)
      ensures x != t.id
    {
      var j := ChildrenUnder(ts, t.id, 0, fanOut, x);
      ChildIndex(t.id, fanOut, j);
    }
    NoDupsConcat([t.id], AgentsOf(ts));
  }

  lemma {:induction false} ChildIdsUnique(ts: seq<Node>, a: int, k: nat, fanOut: nat)
    requires fanOut > 0 && a <= -1 && k + AgentCount(ts) <= fanOut
    requires NumberedFrom(ts, FirstAgent(a, fanOut) - k, fanOut)
    ensures NoDups(AgentsOf(ts))
    decreases ts, 0
  {
    if ts != [] {
      var rest := ts[1..];
      if ts[0].BackEnd? {
        ChildIdsUnique(rest, a, k, fanOut);
        assert AgentsOf(ts) == [] + AgentsOf(rest) == AgentsOf(rest);
      } else {
        ChildNegative(a, fanOut, k);
        AgentIdsUnique(ts[0], fanOut);
        ChildIdsUnique(rest, a, k + 1, fanOut);
        FirstApart(ts, a, k, fanOut);
        NoDupsConcat(Agents(ts[0]), AgentsOf(rest));
      }
    }
  }

  lemma FirstApart(ts: seq<Node>, a: int, k: nat, fanOut: nat)
    requires fanOut > 0 && a <= -1 && ts != [] && ts[0].Agent?
    requires k + AgentCount(ts) <= fanOut && NumberedFrom(ts, FirstAgent(a, fanOut) - k, fanOut)
    ensures forall x :: x in Agents(ts[0]) ==> x !in AgentsOf(ts[1..])
  {
    ChildIndex(a, fanOut, k);
    ChildNegative(a, fanOut, k);
    forall x | x in Agents(ts[0])
      ensures x !in AgentsOf(ts[1..])
    {
      if x in AgentsOf(ts[1..]) {
        TreeUnder(ts[0], fanOut, x);
        var j := ChildrenUnder(ts[1..], a, k + 1, fanOut, x);
        ChildIndex(a, fanOut, j);
        MulBounds(Index(a), fanOut);
        SiblingsApart(Index(ts[0].id), Index(FirstAgent(a, fanOut) - j), Index(x), fanOut);
        assert false;
      }
    }
  }

  // ----- how far agent ids count down -----

  /** The largest index there can be in `d` levels of agents, the first of them with index at most `m`. */
  function MaxIndex(m: int, fanOut: nat, d: nat): int
    decreases d
  {
    if d <= 1 then m else MaxIndex(m * fanOut + fanOut, fanOut, d - 1)
  }

  lemma {:induction false} MaxIndexGrows(m: int, k: int, fanOut: nat, d: nat, e: nat)
    requires 0 <= m <= k && fanOut > 0 && d <= e
    ensures m <= MaxIndex(m, fanOut, d) <= MaxIndex(k, fanOut, e)
    decreases e
  {
    if e > 1 {
      MulMonotone(m, k, fanOut);
      MulBounds(k, fanOut);
      MulBounds(m, fanOut);
      if d <= 1 {
        MaxIndexGrows(m, k * fanOut + fanOut, fanOut, 1, e - 1);
      } else {
        MaxIndexGrows(m * fanOut + fanOut, k * fanOut + fanOut, fanOut, d - 1, e - 1);
      }
    }
  }

  /** In closed form, for fan-outs from two on. */
  lemma {:induction false} MaxIndexClosed(m: int, fanOut: nat, d: nat)
    requires m >= 0 && fanOut >= 2 && d >= 1
    ensures MaxIndex(m, fanOut, d) + 2 <= (m + 2) * Pow(fanOut, d - 1)
    decreases d
  {
    if d > 1 {
      MulBounds(m, fanOut);
      MaxIndexClosed(m * fanOut + fanOut, fanOut, d - 1);
      ClosedStep(m, fanOut, Pow(fanOut, d - 2));
    }
  }

  lemma ClosedStep(m: int, fanOut: nat, p: nat)
    requires m >= 0 && fanOut >= 2
    ensures (m * fanOut + fanOut + 2) * p <= (m + 2) * (fanOut * p)
  {
    var mf := m * fanOut;
    calc {
      (mf + fanOut + 2) * p;
    <= { MulMonotone(mf + fanOut + 2, mf + 2 * fanOut, p); }
      (mf + 2 * fanOut) * p;
    ==
      mf * p + 2 * (fanOut * p);
    == { MulAssociative(m, fanOut, p); }
      m * (fanOut * p) + 2 * (fanOut * p);
    ==
      (m + 2) * (fanOut * p);
    }
  }

  /** The agents of a numbered tree have no larger index than its depth allows. */
  lemma {:induction false} AgentIdBound(t: Node, fanOut: nat, x: int)
    requires fanOut > 0 && t.Agent? && t.id <= -1 && Numbered(t, fanOut) && x in Agents(t)
    ensures Index(x) <= MaxIndex(Index(t.id), fanOut, Depth(t))
    decreases t, 1
  {
    if x == t.id {
      MaxIndexGrows(Index(t.id), Index(t.id), fanOut, 1, Depth(t));
    } else {
      ChildrenIdBound(t.children, t.id, 0, fanOut, x);
    }
  }

  lemma {:induction false} ChildrenIdBound(ts: seq<Node>, a: int, k: nat, fanOut: nat, x: int)
    requires fanOut > 0 && a <= -1 && k + AgentCount(ts) <= fanOut
    requires NumberedFrom(ts, FirstAgent(a, fanOut) - k, fanOut) && x in AgentsOf(ts)
    ensures DepthOf(ts) >= 1 && Index(x) <= MaxIndex(Index(a), fanOut, 1 + DepthOf(ts))
    decreases ts, 0
  {
    var d, m := DepthOf(ts), Index(a);
    MulBounds(m, fanOut);
    if ts[0].Agent? && x in Agents(ts[0]) {
      ChildIndex(a, fanOut, k);
      ChildNegative(a, fanOut, k);
      AgentIdBound(ts[0], fanOut, x);
      MaxIndexGrows(Index(ts[0].id), m * fanOut + fanOut, fanOut, Depth(ts[0]), d);
    } else {
      ChildrenIdBound(ts[1..], a, if ts[0].Agent? then k + 1 else k, fanOut, x);
      MaxIndexGrows(m, m, fanOut, 1 + DepthOf(ts[1..]), 1 + d);
    }
  }
}
