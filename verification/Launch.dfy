/** Splitting a contiguous range of back ends among at most `fanOut` children, and the tree this gives. */
module Launch {
  import opened Arithmetic

  function Pow(b: nat, e: nat): nat {
    if e == 0 then 1 else b * Pow(b, e - 1)
  }

  lemma PowPositive(b: nat, e: nat)
    requires b > 0
    ensures Pow(b, e) > 0
  {
    if e > 0 { PowPositive(b, e - 1); }
  }

  /**
   * The sizes handed out by the loop of `launch_tree2`: each child takes the ceiling of an even share of what is
   * left.
   */
  function Steps(n: nat, out: nat): seq<nat>
    requires n > 0 ==> out > 0
    decreases out
  {
    if n == 0 then []
    else
      var step := CeilDiv(n, out);
      CeilDivIs(n, out);
      LastTakesAll(n, out);
      [step] + Steps(n - step, out - 1)
  }

  lemma LastTakesAll(n: nat, out: nat)
    requires n > 0 && out > 0
    ensures CeilDiv(n, out) <= n && (out == 1 ==> CeilDiv(n, out) == n)
  {
    CeilDivIs(n, out);
  }

  /** One round leaves an even share for one child less. */
  lemma ShareStep(n: nat, out: nat)
    requires n > 0 && out > 1
    ensures var rest := n - CeilDiv(n, out);
            && rest >= 0
            && rest / (out - 1) == n / out
            && rest % (out - 1) == (if n % out > 0 then n % out - 1 else 0)
  {
    CeilDivIs(n, out);
    var q, r := n / out, n % out;
    assert n == q * out + r;
    assert q * out == q * (out - 1) + q;
    if r > 0 {
      DivModUnique(n - (q + 1), out - 1, q, r - 1);
    } else {
      DivModUnique(n - q, out - 1, q, 0);
    }
  }

  /**
   * The whole split of a node: exactly min(n, out) children, of sizes that differ by at most one, the larger
   * ones first.
   */
  lemma {:induction false} StepsExact(n: nat, out: nat, i: nat)
    requires out > 0
    ensures |Steps(n, out)| == if n < out then n else out
    ensures i < |Steps(n, out)| ==> Steps(n, out)[i] == n / out + if i < n % out then 1 else 0
    decreases out
  {
    CeilDivIs(n, out);
    SmallShare(n, out);
    if n == 0 {
    } else if out == 1 {
      LastTakesAll(n, out);
      OneShare(n);
      assert Steps(n, out) == [n] + Steps(0, 0);
    } else {
      var step := CeilDiv(n, out);
      ShareStep(n, out);
      SmallShare(n - step, out - 1);
      StepsExact(n - step, out - 1, if i == 0 then 0 else i - 1);
      assert Steps(n, out) == [step] + Steps(n - step, out - 1);
    }
  }

  lemma OneShare(n: nat)
    ensures n / 1 == n && n % 1 == 0
  {
  }

  lemma SmallShare(n: nat, m: nat)
    requires m > 0
    ensures n < m ==> n / m == 0 && n % m == n
    ensures n >= m ==> n / m >= 1
  {
    if n < m { DivModUnique(n, m, 0, n); } else { DivLower(n, m); }
  }

  function Sum(steps: seq<nat>): nat {
    if steps == [] then 0 else steps[0] + Sum(steps[1..])
  }

  /** The children take all back ends between them, and none gets nothing. */
  lemma {:induction false} StepsCover(n: nat, out: nat)
    requires n > 0 ==> out > 0
    ensures Sum(Steps(n, out)) == n
    ensures forall i :: 0 <= i < |Steps(n, out)| ==> 0 < Steps(n, out)[i] <= n
    decreases out
  {
    if n > 0 {
      CeilDivIs(n, out);
      LastTakesAll(n, out);
      StepsCover(n - CeilDiv(n, out), out - 1);
      assert Steps(n, out)[1..] == Steps(n - CeilDiv(n, out), out - 1);
    }
  }

  /** With a fan-out of two or more every child is smaller than its parent; with one it never is. */
  lemma StepsShrink(n: nat, out: nat)
    requires n >= 2 && out > 0
    ensures (forall i :: 0 <= i < |Steps(n, out)| ==> Steps(n, out)[i] < n) <==> out >= 2
  {
    if out == 1 {
      StepsExact(n, out, 0);
      OneShare(n);
      assert Steps(n, out)[0] == n;
    } else {
      ShareBelow(n, out);
      forall i | 0 <= i < |Steps(n, out)|
        ensures Steps(n, out)[i] < n
      {
        StepsExact(n, out, i);
      }
    }
  }

  lemma ShareBelow(n: nat, m: nat)
    requires n >= 2 && m >= 2
    ensures n / m + (if n % m > 0 then 1 else 0) < n
  {
    var q, r := n / m, n % m;
    assert n == q * m + r;
    assert q * m >= q * 2;
  }

  lemma ShareBound(n: nat, m: nat, p: nat)
    requires m > 0 && n <= m * p
    ensures n / m + (if n % m > 0 then 1 else 0) <= p
  {
    var q, r := n / m, n % m;
    assert n == q * m + r;
    MulMonotone(p + 1, q, m);
    assert (p + 1) * m == p * m + m && p * m == m * p;
  }

  // ----- launch_tree4 -----

  /** One back end, then even shares of the rest. */
  function Steps4(n: nat, fanOut: nat): seq<nat>
    requires fanOut > 0
  {
    if n == 0 then [] else [1] + Steps(n - 1, fanOut)
  }

  /**
   * At most fanOut + 1 children, one more than the reference count allows for exactly when there are more back ends
   * than fanOut.
   */
  lemma Steps4Exact(n: nat, fanOut: nat)
    requires fanOut > 0
    ensures Sum(Steps4(n, fanOut)) == n && |Steps4(n, fanOut)| <= fanOut + 1
    ensures |Steps4(n, fanOut)| == (if n > fanOut then fanOut else n) + if n > fanOut then 1 else 0
    ensures forall i :: 0 <= i < |Steps4(n, fanOut)| ==> Steps4(n, fanOut)[i] == 1 || Steps4(n, fanOut)[i] < n
  {
    if n > 0 {
      StepsExact(n - 1, fanOut, 0);
      StepsCover(n - 1, fanOut);
      var q := Steps4(n, fanOut);
      assert q[1..] == Steps(n - 1, fanOut);
      assert forall i :: 1 <= i < |q| ==> q[i] == Steps(n - 1, fanOut)[i - 1];
    }
  }
}
