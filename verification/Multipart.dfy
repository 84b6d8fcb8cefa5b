/** The body state of the multipart form scanner. */
module Multipart {
  import opened HttpText
  import opened Packing
  import opened Streams

  // ----- occurrences of the delimiter -----

  predicate MatchAt(s: seq<byte>, d: seq<byte>, i: int) {
    0 <= i && i + |d| <= |s| && s[i..i + |d|] == d
  }

  ghost predicate NoneBefore(s: seq<byte>, d: seq<byte>, n: int) {
    forall i :: 0 <= i < n ==> !MatchAt(s, d, i)
  }

  ghost predicate FirstAt(s: seq<byte>, d: seq<byte>, p: int) {
    MatchAt(s, d, p) && NoneBefore(s, d, p)
  }

  ghost predicate Absent(s: seq<byte>, d: seq<byte>) {
    NoneBefore(s, d, |s|)
  }

  /** Matches in a suffix are the matches of the whole that start in it. */
  lemma MatchInSuffix(a: seq<byte>, b: seq<byte>, d: seq<byte>, i: int)
    requires 0 <= i
    ensures MatchAt(a + b, d, |a| + i) <==> MatchAt(b, d, i)
  {
    if i + |d| <= |b| {
      assert (a + b)[|a| + i..|a| + i + |d|] == b[i..i + |d|];
    }
  }

  /** A match that fits in a prefix is a match of the prefix. */
  lemma MatchInPrefix(a: seq<byte>, b: seq<byte>, d: seq<byte>, i: int)
    requires 0 <= i && i + |d| <= |a|
    ensures MatchAt(a + b, d, i) <==> MatchAt(a, d, i)
  {
    assert (a + b)[i..i + |d|] == a[i..i + |d|];
  }

  /** `n` bytes of `t` may be given out: the delimiter starts in none of them, whatever follows `t`. */
  ghost predicate Safe(t: seq<byte>, d: seq<byte>, n: int) {
    0 <= n <= |t| && (n == 0 || n + |d| <= |t|) && NoneBefore(t, d, n)
  }

  lemma SafeExtends(t: seq<byte>, more: seq<byte>, d: seq<byte>, n: int)
    requires Safe(t, d, n)
    ensures Safe(t + more, d, n)
  {
    forall i | 0 <= i < n
      ensures !MatchAt(t + more, d, i)
    {
      MatchInPrefix(t, more, d, i);
    }
  }

  /** Found in the window: it is the first in the whole. */
  lemma FoundIsFirst(given: seq<byte>, window: seq<byte>, d: seq<byte>, p: int)
    requires Safe(given + window, d, |given|) && FirstAt(window, d, p)
    ensures FirstAt(given + window, d, |given| + p)
  {
    MatchInSuffix(given, window, d, p);
    forall i | 0 <= i < |given| + p
      ensures !MatchAt(given + window, d, i)
    {
      if i >= |given| {
        MatchInSuffix(given, window, d, i - |given|);
        assert !MatchAt(window, d, i - |given|);
      }
    }
  }

  /** Not found in the window: all but the last |d| bytes are safe, and the whole has no match. */
  lemma MissedIsSafe(given: seq<byte>, window: seq<byte>, d: seq<byte>)
    requires Safe(given + window, d, |given|) && Absent(window, d) && d != []
    ensures Absent(given + window, d)
    ensures |window| >= |d| ==> Safe(given + window, d, |given| + |window| - |d|)
  {
    var t := given + window;
    forall i | 0 <= i < |t|
      ensures !MatchAt(t, d, i)
    {
      if i >= |given| {
        MatchInSuffix(given, window, d, i - |given|);
        assert !MatchAt(window, d, i - |given|);
      }
    }
  }

  lemma FirstUnique(s: seq<byte>, d: seq<byte>, p: int, q: int)
    requires FirstAt(s, d, p) && FirstAt(s, d, q)
    ensures p == q
  {
  }

  // ----- the scanner -----

  class MultipartFormDataParser {
    const crlfDashBoundary: seq<byte>
    var buf: seq<byte>
    var spos: nat
    var epos: nat
    var state: nat
    var isValid: bool
    /** What the content callback has been given. */
    var given: seq<byte>

    ghost predicate Valid()
      reads this
    {
      spos <= epos <= |buf| && |crlfDashBoundary| >= 4
    }

    function Window(): seq<byte>
      requires Valid()
      reads this
    {
      buf[spos..epos]
    }

    /** A parser that has just entered the body state with the bytes `rest` still in its buffer. */
    constructor InBody(boundary: seq<byte>, rest: seq<byte>)
      ensures Valid() && crlfDashBoundary == [13, 10, 45, 45] + boundary
      ensures Window() == rest && state == 3 && given == []
    {
      crlfDashBoundary := CRLF + DASH + boundary;
      buf, spos, epos := rest, 0, |rest|;
      state, isValid, given := 3, false, [];
    }

    /** Move what is left to the front and add the new bytes behind it. */
    method BufAppend(data: seq<byte>)
      requires Valid()
      modifies this`buf, this`spos, this`epos
      ensures Valid() && Window() == old(Window()) + data
    {
      var remaining := epos - spos;
      if remaining > 0 && spos > 0 {
        ShiftDown(remaining);
      }
      assert buf[..remaining] == old(Window());
      spos, epos := 0, remaining;
      if remaining + |data| > |buf| {
        buf := buf + seq(remaining + |data| - |buf|, i => 0);
      }
      assert buf[..epos] == old(Window());
      CopyIn(data);
      epos := epos + |data|;
    }

    method CopyIn(data: seq<byte>)
      requires epos + |data| <= |buf|
      modifies this`buf
      ensures |buf| == |old(buf)| && buf[..epos + |data|] == old(buf)[..epos] + data
    {
      for i := 0 to |data|
        invariant |buf| == |old(buf)|
        invariant forall k :: 0 <= k < epos ==> buf[k] == old(buf)[k]
        invariant forall k :: 0 <= k < i ==> buf[epos + k] == data[k]
      {
        buf := buf[epos + i := data[i]];
      }
    }

    /** The in-place copy loop. */
    method ShiftDown(remaining: nat)
      requires Valid() && remaining == epos - spos && spos > 0
      modifies this`buf
      ensures |buf| == |old(buf)| && buf[..remaining] == old(buf)[spos..epos]
    {
      for i := 0 to remaining
        invariant |buf| == |old(buf)|
        invariant forall k :: 0 <= k < i ==> buf[k] == old(buf)[spos + k]
        invariant forall k :: i <= k < |buf| ==> buf[k] == old(buf)[k]
      {
        buf := buf[i := buf[spos + i]];
      }
    }

    function BufHead(n: nat): (head: seq<byte>)
      requires Valid() && n <= epos - spos
      reads this
      ensures head == Window()[..n]
    {
      SliceOfSlice(buf, spos, epos, spos, spos + n);
      buf[spos..spos + n]
    }

    method BufErase(n: nat)
      requires Valid() && n <= epos - spos
      modifies this`spos
      ensures Valid() && Window() == old(Window())[n..]
    {
      SliceOfSlice(buf, spos, epos, spos + n, epos);
      spos := spos + n;
    }

    method StartWith(pos: nat, s: seq<byte>) returns (r: bool)
      requires Valid() && spos <= pos <= epos
      ensures r == MatchAt(Window(), s, pos - spos)
    {
      if epos - pos < |s| {
        return false;
      }
      SliceOfSlice(buf, spos, epos, pos, pos + |s|);
      for i := 0 to |s|
        invariant forall k :: 0 <= k < i ==> buf[pos + k] == s[k]
      {
        if buf[pos + i] != s[i] {
          assert buf[pos..pos + |s|][i] != s[i];
          return false;
        }
      }
      assert buf[pos..pos + |s|] == s;
      return true;
    }

    /** The first occurrence in the window, or the window's size. */
    method BufFind(s: seq<byte>) returns (r: nat)
      requires Valid() && s != []
      ensures r <= |Window()|
      ensures r < |Window()| ==> FirstAt(Window(), s, r)
      ensures r == |Window()| ==> Absent(Window(), s)
    {
      var c := s[0];
      var off := spos;
      while off < epos
        invariant spos <= off <= epos
        invariant NoneBefore(Window(), s, off - spos)
      {
        var pos := off;
        while pos < epos && buf[pos] != c
          invariant off <= pos <= epos && NoneBefore(Window(), s, pos - spos)
        {
          WrongStart(Window(), s, pos - spos);
          pos := pos + 1;
        }
        if pos == epos {
          return epos - spos;
        }
        if |s| > epos - pos {
          return epos - spos;
        }
        var found := StartWith(pos, s);
        if found {
          return pos - spos;
        }
        off := pos + 1;
      }
      return epos - spos;
    }

    /**
     * One call of `parse` in the body state, up to leaving the state or returning. `reply` is what the content
     * callback answers if it is called.
     */
    method ParseBody(data: seq<byte>, reply: bool) returns (ok: bool)
      requires Valid() && state == 3
      modifies this
      ensures Valid()
      ensures var w := old(Window()) + data;
              && ok == (reply || (Absent(w, crlfDashBoundary) && |w| <= |crlfDashBoundary|))
              && (!ok ==> !isValid && state == 3 && given == old(given) && Window() == w)
      ensures ok ==> BodyStep(crlfDashBoundary, old(given), old(Window()) + data, given, Window(), state)
    {
      hide BodyStep, FirstAt, Absent;
      BufAppend(data);
      ghost var g, w, d := given, Window(), crlfDashBoundary;
      if epos - spos == 0 || |crlfDashBoundary| > epos - spos {
        TooShort(g, w, d);
        return true;
      }
      var pos := BufFind(crlfDashBoundary);
      if pos < epos - spos {
        FoundStep(g, w, d, pos);
        if !reply {
          isValid := false;
          return false;
        }
        given := given + BufHead(pos);
        BufErase(pos + |crlfDashBoundary|);
        state := 4;
      } else {
        MissedStep(g, w, d);
        var len := epos - spos - |crlfDashBoundary|;
        if len > 0 {
          if !reply {
            isValid := false;
            return false;
          }
          given := given + BufHead(len);
          BufErase(len);
        }
      }
      return true;
    }

    /** Feed pieces until the state is left or there are no more; `k` pieces were used. */
    method ParseAll(pieces: seq<seq<byte>>) returns (k: nat)
      requires Valid() && state == 3 && given == [] && pieces != []
      modifies this
      ensures Valid() && k <= |pieces|
      ensures Scanned(crlfDashBoundary, old(Window()) + Flat(pieces[..k]), given, Window(), state)
      ensures state == 3 ==> k == |pieces|
    {
      hide Flat, BodyStep, Scanned;
      var d := crlfDashBoundary;
      k := 0;
      ghost var total := old(Window());
      assert given + Window() == total && Safe(total, d, |given|);
      FlatEmpty();
      assert pieces[..0] == [] && total + [] == total;
      while k < |pieces| && state == 3
        invariant k <= |pieces| && Valid() && crlfDashBoundary == d
        invariant total == old(Window()) + Flat(pieces[..k])
        invariant state == 3 ==> given + Window() == total && Safe(total, d, |given|)
        invariant k == 0 ==> state == 3
        invariant k > 0 ==> Scanned(d, total, given, Window(), state)
        decreases |pieces| - k
      {
        ghost var g, w := given, Window();
        Regroup(g, w, pieces[k]);
        SafeExtends(total, pieces[k], d, |g|);
        var ok := ParseBody(pieces[k], true);
        StepScans(d, g, w + pieces[k], given, Window(), state);
        FlatNext(pieces, k);
        Regroup(old(Window()), Flat(pieces[..k]), pieces[k]);
        total := total + pieces[k];
        k := k + 1;
      }
    }
  }

  lemma WrongStart(w: seq<byte>, s: seq<byte>, i: int)
    requires 0 <= i < |w| && s != [] && w[i] != s[0]
    ensures !MatchAt(w, s, i)
  {
    if i + |s| <= |w| { assert w[i..i + |s|][0] == w[i]; }
  }

  lemma MatchSplits(w: seq<byte>, d: seq<byte>, p: int)
    requires FirstAt(w, d, p) && 0 <= p && p + |d| <= |w|
    ensures w == w[..p] + (d + w[p + |d|..])
  {
    assert w[p..] == w[p..p + |d|] + w[p + |d|..];
  }

  /** What a call does with the window `w`: give out the bytes before the delimiter, or all but the last |d|. */
  ghost predicate BodyStep(d: seq<byte>, g: seq<byte>, w: seq<byte>, given: seq<byte>, window: seq<byte>, state: nat) {
    || (state == 4
        && exists p :: FirstAt(w, d, p) && 0 <= p && p + |d| <= |w| && given == g + w[..p] && window == w[p + |d|..])
    || (state == 3 && Absent(w, d) && |w| < |d| && given == g && window == w)
    || (state == 3 && Absent(w, d) && |w| >= |d| && given == g + w[..|w| - |d|] && window == w[|w| - |d|..])
  }

  lemma TooShort(g: seq<byte>, w: seq<byte>, d: seq<byte>)
    requires |w| < |d|
    ensures BodyStep(d, g, w, g, w, 3) && Absent(w, d)
  {
  }

  lemma FoundStep(g: seq<byte>, w: seq<byte>, d: seq<byte>, p: int)
    requires FirstAt(w, d, p) && d != []
    ensures 0 <= p && p + |d| <= |w| && BodyStep(d, g, w, g + w[..p], w[p + |d|..], 4)
    ensures !Absent(w, d)
  {
  }

  lemma MissedStep(g: seq<byte>, w: seq<byte>, d: seq<byte>)
    requires Absent(w, d) && |w| >= |d|
    ensures BodyStep(d, g, w, g + w[..|w| - |d|], w[|w| - |d|..], 3)
    ensures |w| == |d| ==> g + w[..|w| - |d|] == g && w[|w| - |d|..] == w
  {
  }

  /** What has been given out of `t`, from which every cut of `t` has vanished. */
  ghost predicate Scanned(d: seq<byte>, t: seq<byte>, given: seq<byte>, window: seq<byte>, state: nat) {
    || (state == 4 && FirstAt(t, d, |given|) && t == given + d + window)
    || (state == 3 && Absent(t, d) && t == given + window && Safe(t, d, |given|)
        && (|window| == |d| || (given == [] && |t| < |d|)))
  }

  lemma StepScans(d: seq<byte>, g: seq<byte>, w: seq<byte>, given: seq<byte>, window: seq<byte>, state: nat)
    requires d != [] && Safe(g + w, d, |g|) && BodyStep(d, g, w, given, window, state)
    ensures state == 4 || given + window == g + w
    ensures state == 3 ==> Safe(g + w, d, |given|)
    ensures Scanned(d, g + w, given, window, state)
  {
    hide MatchAt, NoneBefore;
    var t := g + w;
    if state == 4 {
      var p :| FirstAt(w, d, p) && 0 <= p && p + |d| <= |w| && given == g + w[..p] && window == w[p + |d|..];
      FoundIsFirst(g, w, d, p);
      MatchSplits(w, d, p);
      Regroup(g, w[..p], d + window);
      Regroup(given, d, window);
      Regroup(w[..p], d, window);
    } else {
      MissedIsSafe(g, w, d);
      if |w| >= |d| {
        assert w == w[..|w| - |d|] + w[|w| - |d|..];
        Regroup(g, w[..|w| - |d|], window);
      }
    }
  }

  /** Input that was not needed to find the delimiter does not move it. */
  lemma FirstExtends(t: seq<byte>, more: seq<byte>, d: seq<byte>, p: int)
    requires FirstAt(t, d, p)
    ensures FirstAt(t + more, d, p)
  {
    MatchInPrefix(t, more, d, p);
    forall i | 0 <= i < p
      ensures !MatchAt(t + more, d, i)
    {
      MatchInPrefix(t, more, d, i);
    }
  }

  /**
   * The same input cut in two ways, each scanned until the state is left or the input ends: the same content
   * was given out, the same bytes are left for what follows, and both or neither left the state.
   */
  lemma CutsAgree(d: seq<byte>, t1: seq<byte>, more1: seq<byte>, g1: seq<byte>, w1: seq<byte>, s1: nat,
                  t2: seq<byte>, more2: seq<byte>, g2: seq<byte>, w2: seq<byte>, s2: nat)
    requires d != [] && t1 + more1 == t2 + more2
    requires Scanned(d, t1, g1, w1, s1) && (s1 == 3 ==> more1 == [])
    requires Scanned(d, t2, g2, w2, s2) && (s2 == 3 ==> more2 == [])
    ensures s1 == s2 && g1 == g2 && w1 + more1 == w2 + more2
  {
    var t := t1 + more1;
    Whole(d, t1, more1, g1, w1, s1);
    Whole(d, t2, more2, g2, w2, s2);
    assert s1 == 4 && s2 == 4 ==> |g1| == |g2| by {
      if s1 == 4 && s2 == 4 { FirstUnique(t, d, |g1|, |g2|); }
    }
    assert g1 == t[..|g1|] && g2 == t[..|g2|];
    if s1 == 4 && s1 == s2 {
      assert w1 + more1 == t[|g1| + |d|..] && w2 + more2 == t[|g2| + |d|..];
    }
  }

  lemma Whole(d: seq<byte>, t: seq<byte>, more: seq<byte>, g: seq<byte>, w: seq<byte>, s: nat)
    requires d != [] && Scanned(d, t, g, w, s) && (s == 3 ==> more == [])
    ensures s == 4 ==> FirstAt(t + more, d, |g|) && t + more == g + (d + (w + more))
    ensures s == 3 ==> Absent(t + more, d) && t + more == g + w && |g| == if |t| < |d| then 0 else |t| - |d|
    ensures s == 3 ==> forall p :: !FirstAt(t + more, d, p)
  {
    if s == 4 {
      FirstExtends(t, more, d, |g|);
      Regroup(g + d, w, more);
      Regroup(g, d, w + more);
    } else {
      assert t + more == t;
    }
  }
}
