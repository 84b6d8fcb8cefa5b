/** `BEMap`: expanding host-file lines and handing out back-end ids. */
module BackEndMaps {
  import opened SortedSets
  import opened Ranges
  import opened Arithmetic
  import opened Launcher

  const BEMAP_SUCCESS: int := 0
  const BEMAP_ERROR: int := -1
  const BEMAP_FULL: int := -999999
  const SCI_SUCCESS: int := 0
  const SCI_ERR_INVALID_HOSTFILE: int := -2001

  // ----- parsed lines -----

  datatype HostRange = NoRange | HostRange(first: int, last: int, stride: int, digits: nat)

  /** `front[first-last:stride]tail*repetition` */
  datatype HostRegion = HostRegion(front: string, tail: string, range: HostRange, repetition: int)

  /** `%[a,b,c]`, `%[first-last:stride]`, or no task region; an omitted stride is `None`. */
  datatype Stride = None | Every(width: int)
  datatype TaskRegion = NoTasks | TaskList(ids: seq<int>) | TaskRange(first: int, last: int, stride: Stride)

  /** A line that passes the form check, or one that does not. */
  datatype Line = BadForm | Line(host: HostRegion, task: TaskRegion)

  predicate GoodHost(h: HostRegion) {
    && h.repetition > 0
    && (h.range.HostRange? ==> h.range.stride > 0 && 0 <= h.range.first <= h.range.last)
  }

  /** Bounds of a task range are only checked when it has a stride. */
  predicate GoodTasks(t: TaskRegion) {
    t.TaskRange? && t.stride.Every? ==> t.stride.width > 0 && 0 <= t.first <= t.last
  }

  function Progression(first: int, last: int, stride: int): seq<int>
    requires stride > 0
    decreases last - first
  {
    if first > last then [] else [first] + Progression(first + stride, last, stride)
  }

  lemma ProgressionStep(done: seq<int>, first: int, last: int, stride: int)
    requires stride > 0
    ensures first <= last ==>
              done + Progression(first, last, stride) == (done + [first]) + Progression(first + stride, last, stride)
    ensures first > last ==> done + Progression(first, last, stride) == done
  {
  }

  function Repeat(s: string, n: nat): seq<string> {
    seq(n, i => s)
  }

  function Decimal(n: nat): string {
    if n < 10 then [('0' as int + n) as char] else Decimal(n / 10) + [('0' as int + n % 10) as char]
  }

  /** `%0<digits>d` */
  function Padded(n: nat, digits: nat): string {
    var s := Decimal(n);
    if |s| < digits then seq(digits - |s|, i => '0') + s else s
  }

  function EntriesOver(h: HostRegion, ids: seq<int>): seq<string>
    requires h.repetition > 0 && h.range.HostRange?
  {
    if ids == [] then []
    else Repeat(h.front + Padded(if ids[0] < 0 then 0 else ids[0], h.range.digits) + h.tail, h.repetition)
         + EntriesOver(h, ids[1..])
  }

  /** The hosts a line names, each as often as it is repeated. */
  function Entries(h: HostRegion): seq<string>
    requires GoodHost(h)
  {
    if h.range.NoRange? then Repeat(h.front + h.tail, h.repetition)
    else EntriesOver(h, Progression(h.range.first, h.range.last, h.range.stride))
  }

  /** The ids a line asks for; none means that ids are to be handed out. */
  function Tasks(t: TaskRegion): seq<int>
    requires GoodTasks(t)
  {
    match t
    case NoTasks => []
    case TaskList(ids) => ids
    case TaskRange(first, last, stride) => Progression(first, last, if stride.None? then 1 else stride.width)
  }

  // ----- handing out ids -----

  /** The least id from `k` on that is not in use. */
  function Unused(keys: set<int>, k: int): int
    decreases keys
  {
    if k !in keys then k else Unused(keys - {k}, k + 1)
  }

  lemma {:induction false} UnusedIsLeast(keys: set<int>, k: int)
    ensures var u := Unused(keys, k); k <= u && u !in keys && forall j :: k <= j < u ==> j in keys
    decreases keys
  {
    if k in keys {
      UnusedIsLeast(keys - {k}, k + 1);
      var u := Unused(keys - {k}, k + 1);
      forall j | k <= j < u
        ensures j in keys
      {
        assert j != k ==> j in keys - {k};
      }
    }
  }

  lemma UnusedUnique(keys: set<int>, k: int, u: int)
    requires k <= u && u !in keys && forall j :: k <= j < u ==> j in keys
    ensures Unused(keys, k) == u
  {
    UnusedIsLeast(keys, k);
  }

  type Hosts = map<int, string>

  /** Each host gets the least unused id, until the map is full. */
  function HandOut(m: Hosts, entries: seq<string>, num: int): (Hosts, int)
    decreases |entries|
  {
    if entries == [] then (m, BEMAP_SUCCESS)
    else if num > 0 && |m| >= num then (m, BEMAP_FULL)
    else HandOut(m[Unused(m.Keys, 0) := entries[0]], entries[1..], num)
  }

  /** Host `i` gets task `i`; negative and repeated ids are errors. */
  function Assign(m: Hosts, tasks: seq<int>, entries: seq<string>, num: int): (Hosts, int)
    requires |tasks| == |entries|
    decreases |tasks|
  {
    if tasks == [] then (m, BEMAP_SUCCESS)
    else if tasks[0] < 0 || tasks[0] in m then (m, BEMAP_ERROR)
    else if num > 0 && |m| >= num then (m, BEMAP_FULL)
    else Assign(m[tasks[0] := entries[0]], tasks[1..], entries[1..], num)
  }

  function Expand(m: Hosts, line: Line, num: int): (Hosts, int) {
    if line.BadForm? || !GoodHost(line.host) || !GoodTasks(line.task) then (m, BEMAP_ERROR)
    else
      var entries, tasks := Entries(line.host), Tasks(line.task);
      if tasks == [] then HandOut(m, entries, num)
      else if |tasks| != |entries| then (m, BEMAP_ERROR)
      else Assign(m, tasks, entries, num)
  }

  /** All lines in turn; a full map ends the reading without an error. */
  function ReadLines(m: Hosts, lines: seq<Line>, num: int): (Hosts, int)
    decreases |lines|
  {
    if lines == [] || (num > 0 && |m| >= num) then (m, BEMAP_SUCCESS)
    else
      var (m', rc) := Expand(m, lines[0], num);
      if rc == BEMAP_FULL then (m', BEMAP_SUCCESS)
      else if rc != BEMAP_SUCCESS then (m', BEMAP_ERROR)
      else ReadLines(m', lines[1..], num)
  }

  // ----- what the ids look like -----

  ghost predicate NonNegative(m: Hosts) {
    forall k :: k in m ==> k >= 0
  }

  lemma {:induction false} HandOutKeeps(m: Hosts, entries: seq<string>, num: int)
    requires NonNegative(m)
    ensures NonNegative(HandOut(m, entries, num).0)
    decreases |entries|
  {
    if entries != [] && !(num > 0 && |m| >= num) {
      UnusedIsLeast(m.Keys, 0);
      HandOutKeeps(m[Unused(m.Keys, 0) := entries[0]], entries[1..], num);
    }
  }

  lemma {:induction false} AssignKeeps(m: Hosts, tasks: seq<int>, entries: seq<string>, num: int)
    requires NonNegative(m) && |tasks| == |entries|
    ensures NonNegative(Assign(m, tasks, entries, num).0)
    decreases |tasks|
  {
    if tasks != [] && tasks[0] >= 0 && tasks[0] !in m && !(num > 0 && |m| >= num) {
      AssignKeeps(m[tasks[0] := entries[0]], tasks[1..], entries[1..], num);
    }
  }

  lemma {:induction false} ReadLinesKeeps(m: Hosts, lines: seq<Line>, num: int)
    requires NonNegative(m)
    ensures NonNegative(ReadLines(m, lines, num).0)
    decreases |lines|
  {
    if lines != [] {
      var line := lines[0];
      if !line.BadForm? && GoodHost(line.host) && GoodTasks(line.task) {
        var entries, tasks := Entries(line.host), Tasks(line.task);
        HandOutKeeps(m, entries, num);
        if |tasks| == |entries| { AssignKeeps(m, tasks, entries, num); }
      }
      ReadLinesKeeps(Expand(m, line, num).0, lines[1..], num);
    }
  }

  /** Reading stops with the first line that fails and once the map is full; otherwise lines are read one by one. */
  lemma {:induction false} ReadLinesConcat(m: Hosts, p: seq<Line>, q: seq<Line>, num: int)
    ensures var (m1, rc) := ReadLines(m, p, num);
            ReadLines(m, p + q, num)
            == if rc != BEMAP_SUCCESS || (num > 0 && |m1| >= num) then (m1, rc) else ReadLines(m1, q, num)
    ensures ReadLines(m, p, num).1 == BEMAP_SUCCESS || ReadLines(m, p, num).1 == BEMAP_ERROR
    decreases |p|
  {
    hide Expand;
    if p == [] {
      assert p + q == q;
    } else if !(num > 0 && |m| >= num) {
      assert (p + q)[0] == p[0] && (p + q)[1..] == p[1..] + q;
      var (m', rc) := Expand(m, p[0], num);
      FullIsFull(m, p[0], num);
      ReadLinesConcat(m', p[1..], q, num);
    }
  }

  /** A line that stops because the map is full leaves it full. */
  lemma FullIsFull(m: Hosts, line: Line, num: int)
    ensures Expand(m, line, num).1 == BEMAP_FULL ==> num > 0 && |Expand(m, line, num).0| >= num
    ensures Expand(m, line, num).1 in {BEMAP_SUCCESS, BEMAP_ERROR, BEMAP_FULL}
  {
    if !line.BadForm? && GoodHost(line.host) && GoodTasks(line.task) {
      var entries, tasks := Entries(line.host), Tasks(line.task);
      HandOutFull(m, entries, num);
      if |tasks| == |entries| { AssignFull(m, tasks, entries, num); }
    }
  }

  lemma {:induction false} HandOutFull(m: Hosts, entries: seq<string>, num: int)
    ensures HandOut(m, entries, num).1 in {BEMAP_SUCCESS, BEMAP_FULL}
    ensures HandOut(m, entries, num).1 == BEMAP_FULL ==> num > 0 && |HandOut(m, entries, num).0| >= num
    decreases |entries|
  {
    if entries != [] && !(num > 0 && |m| >= num) {
      HandOutFull(m[Unused(m.Keys, 0) := entries[0]], entries[1..], num);
    }
  }

  lemma {:induction false} AssignFull(m: Hosts, tasks: seq<int>, entries: seq<string>, num: int)
    requires |tasks| == |entries|
    ensures Assign(m, tasks, entries, num).1 in {BEMAP_SUCCESS, BEMAP_ERROR, BEMAP_FULL}
    ensures Assign(m, tasks, entries, num).1 == BEMAP_FULL ==> num > 0 && |Assign(m, tasks, entries, num).0| >= num
    decreases |tasks|
  {
    if tasks != [] && tasks[0] >= 0 && tasks[0] !in m && !(num > 0 && |m| >= num) {
      AssignFull(m[tasks[0] := entries[0]], tasks[1..], entries[1..], num);
    }
  }

  /** A line is refused, and changes nothing, if it has not the form or a number in it is out of bounds. */
  lemma LineRefused(m: Hosts, line: Line, num: int)
    requires num <= 0 || |m| < num
    requires || line.BadForm? || line.host.repetition <= 0
             || (var r := line.host.range; r.HostRange? && (r.stride <= 0 || r.first < 0 || r.first > r.last))
             || (var t := line.task; t.TaskRange? && t.stride.Every?
                                     && (t.stride.width <= 0 || t.first < 0 || t.first > t.last))
    ensures ReadLines(m, [line], num) == (m, BEMAP_ERROR)
  {
    hide HandOut, Assign, Entries, Tasks;
    assert [line][1..] == [];
  }

  /**
   * Any other line gives the hosts the least unused ids if it names no tasks, and otherwise each host its own task if
   * there are as many.
   */
  lemma LineRead(m: Hosts, line: Line, num: int)
    requires (num <= 0 || |m| < num) && line.Line? && line.host.repetition > 0
    requires var r := line.host.range; r.HostRange? ==> r.stride > 0 && 0 <= r.first <= r.last
    requires var t := line.task; t.TaskRange? && t.stride.Every? ==> t.stride.width > 0 && 0 <= t.first <= t.last
    ensures var entries, tasks, r := Entries(line.host), Tasks(line.task), ReadLines(m, [line], num);
            && (tasks != [] && |tasks| != |entries| ==> r == (m, BEMAP_ERROR))
            && (tasks == [] ==> r.0 == HandOut(m, entries, num).0 && r.1 == BEMAP_SUCCESS)
            && (tasks != [] && |tasks| == |entries| ==>
                  && r.0 == Assign(m, tasks, entries, num).0
                  && (r.1 == BEMAP_ERROR <==> Assign(m, tasks, entries, num).1 == BEMAP_ERROR))
  {
    hide HandOut, Assign, Entries, Tasks;
    assert [line][1..] == [];
    var entries, tasks := Entries(line.host), Tasks(line.task);
    HandOutFull(m, entries, num);
    if |tasks| == |entries| { AssignFull(m, tasks, entries, num); }
  }

  /** A file never takes an id away or moves it to another host, and never fills the map beyond the limit. */
  lemma {:induction false} ReadLinesExtends(m: Hosts, lines: seq<Line>, num: int)
    ensures Extends(m, ReadLines(m, lines, num).0)
    ensures num > 0 && |m| <= num ==> |ReadLines(m, lines, num).0| <= num
    decreases |lines|
  {
    hide Expand;
    if lines != [] && !(num > 0 && |m| >= num) {
      var (m', rc) := Expand(m, lines[0], num);
      ExpandExtends(m, lines[0], num);
      ReadLinesExtends(m', lines[1..], num);
    }
  }

  lemma ExpandExtends(m: Hosts, line: Line, num: int)
    ensures Extends(m, Expand(m, line, num).0)
    ensures num > 0 && |m| <= num ==> |Expand(m, line, num).0| <= num
  {
    hide HandOut, Assign, Entries, Tasks;
    if !line.BadForm? && GoodHost(line.host) && GoodTasks(line.task) {
      var entries, tasks := Entries(line.host), Tasks(line.task);
      HandOutExact(m, entries, num);
      HandOutLimit(m, entries, num);
      if |tasks| == |entries| {
        AssignExact(m, tasks, entries, num);
        AssignLimit(m, tasks, entries, num);
      }
    }
  }

  lemma {:induction false} HandOutLimit(m: Hosts, entries: seq<string>, num: int)
    ensures num > 0 && |m| <= num ==> |HandOut(m, entries, num).0| <= num
    decreases |entries|
  {
    if entries != [] && !(num > 0 && |m| >= num) {
      HandOutLimit(m[Unused(m.Keys, 0) := entries[0]], entries[1..], num);
    }
  }

  lemma {:induction false} AssignLimit(m: Hosts, tasks: seq<int>, entries: seq<string>, num: int)
    requires |tasks| == |entries|
    ensures num > 0 && |m| <= num ==> |Assign(m, tasks, entries, num).0| <= num
    decreases |tasks|
  {
    if tasks != [] && tasks[0] >= 0 && tasks[0] !in m && !(num > 0 && |m| >= num) {
      AssignLimit(m[tasks[0] := entries[0]], tasks[1..], entries[1..], num);
    }
  }

  ghost predicate Extends(m: Hosts, m': Hosts) {
    forall k :: k in m ==> k in m' && m'[k] == m[k]
  }

  lemma ExtendsAt(m: Hosts, m': Hosts, k: int)
    requires Extends(m, m') && k in m
    ensures k in m' && m'[k] == m[k]
  {
  }

  /** Ids that may be assigned: not negative, not in use, no two the same. */
  ghost predicate Assignable(m: Hosts, tasks: seq<int>) {
    && (forall i :: 0 <= i < |tasks| ==> tasks[i] >= 0 && tasks[i] !in m)
    && (forall i, j :: 0 <= i < j < |tasks| ==> tasks[i] != tasks[j])
  }

  lemma AssignableStep(m: Hosts, tasks: seq<int>, host: string)
    requires tasks != []
    ensures Assignable(m, tasks) <==>
            tasks[0] >= 0 && tasks[0] !in m && Assignable(m[tasks[0] := host], tasks[1..])
  {
    if Assignable(m[tasks[0] := host], tasks[1..]) && tasks[0] >= 0 && tasks[0] !in m {
      forall i | 0 < i < |tasks|
        ensures tasks[i] >= 0 && tasks[i] !in m && tasks[i] != tasks[0]
      {
        assert tasks[1..][i - 1] == tasks[i];
      }
      forall i, j | 0 <= i < j < |tasks|
        ensures tasks[i] != tasks[j]
      {
        if i > 0 { assert tasks[1..][i - 1] == tasks[i] && tasks[1..][j - 1] == tasks[j]; }
      }
    }
  }

  /** An explicit line is accepted exactly when its ids are new, distinct and fit; it then pairs task i with entry i. */
  lemma {:induction false} AssignExact(m: Hosts, tasks: seq<int>, entries: seq<string>, num: int)
    requires |tasks| == |entries|
    ensures Assign(m, tasks, entries, num).1 == BEMAP_SUCCESS <==>
            Assignable(m, tasks) && (tasks == [] || num <= 0 || |m| + |tasks| <= num)
    ensures Extends(m, Assign(m, tasks, entries, num).0)
    ensures Assign(m, tasks, entries, num).1 == BEMAP_SUCCESS ==>
              var m' := Assign(m, tasks, entries, num).0;
              |m'| == |m| + |tasks| && forall i :: 0 <= i < |tasks| ==> tasks[i] in m' && m'[tasks[i]] == entries[i]
    decreases |tasks|
  {
    if tasks != [] {
      AssignableStep(m, tasks, entries[0]);
      if tasks[0] >= 0 && tasks[0] !in m && !(num > 0 && |m| >= num) {
        var m1 := m[tasks[0] := entries[0]];
        AssignExact(m1, tasks[1..], entries[1..], num);
        AssignFirst(m, tasks, entries, Assign(m1, tasks[1..], entries[1..], num).0);
      }
    }
  }

  lemma AssignFirst(m: Hosts, tasks: seq<int>, entries: seq<string>, m': Hosts)
    requires |tasks| == |entries| > 0 && tasks[0] !in m && Extends(m[tasks[0] := entries[0]], m')
    ensures Extends(m, m') && tasks[0] in m' && m'[tasks[0]] == entries[0]
    ensures (forall i :: 0 <= i < |tasks| - 1 ==> tasks[1..][i] in m' && m'[tasks[1..][i]] == entries[1..][i])
            ==> forall i :: 0 <= i < |tasks| ==> tasks[i] in m' && m'[tasks[i]] == entries[i]
  {
    var m1 := m[tasks[0] := entries[0]];
    assert forall k :: k in m ==> k in m1 && m1[k] == m[k];
    ExtendsAt(m1, m', tasks[0]);
    if forall i :: 0 <= i < |tasks| - 1 ==> tasks[1..][i] in m' && m'[tasks[1..][i]] == entries[1..][i] {
      forall i | 0 <= i < |tasks|
        ensures tasks[i] in m' && m'[tasks[i]] == entries[i]
      {
        if i > 0 { assert tasks[1..][i - 1] == tasks[i] && entries[1..][i - 1] == entries[i]; }
      }
    }
  }

  /** The ids that go to hosts without task ids, in order. */
  function HandedOut(keys: set<int>, n: nat): (ids: seq<int>)
    ensures |ids| == n
    decreases n
  {
    if n == 0 then [] else [Unused(keys, 0)] + HandedOut(keys + {Unused(keys, 0)}, n - 1)
  }

  /** They are unused and ascending, and everything below one of them is used or handed out before it. */
  lemma {:induction false} HandedOutLeast(keys: set<int>, n: nat)
    ensures Ascending(HandedOut(keys, n))
    ensures forall i :: 0 <= i < n ==> HandedOut(keys, n)[i] >= 0 && HandedOut(keys, n)[i] !in keys
    ensures forall i, j :: 0 <= i < n && 0 <= j < HandedOut(keys, n)[i] ==> j in keys || j in HandedOut(keys, n)[..i]
    decreases n
  {
    hide Unused, Ascending;
    if n == 0 {
      assert Ascending([]) by { NothingAscends(); }
    } else {
      var u := Unused(keys, 0);
      UnusedIsLeast(keys, 0);
      HandedOutLeast(keys + {u}, n - 1);
      ConsLeast(keys, u, HandedOut(keys + {u}, n - 1));
    }
  }

  lemma NothingAscends()
    ensures Ascending([])
  {
  }

  /** The least unused id, before ids that follow it. */
  lemma ConsLeast(keys: set<int>, u: int, rest: seq<int>)
    requires u >= 0 && u !in keys && (forall j :: 0 <= j < u ==> j in keys)
    requires Ascending(rest) && forall i :: 0 <= i < |rest| ==> rest[i] >= 0 && rest[i] !in keys + {u}
    requires forall i, j :: 0 <= i < |rest| && 0 <= j < rest[i] ==> j in keys + {u} || j in rest[..i]
    ensures var ids := [u] + rest;
            && Ascending(ids)
            && (forall i :: 0 <= i < |ids| ==> ids[i] >= 0 && ids[i] !in keys)
            && forall i, j :: 0 <= i < |ids| && 0 <= j < ids[i] ==> j in keys || j in ids[..i]
  {
    var ids := [u] + rest;
    forall i | 0 <= i < |rest|
      ensures rest[i] > u
    {
      assert rest[i] !in keys + {u};
    }
    forall i, j | 0 <= i < |ids| && 0 <= j < ids[i]
      ensures j in keys || j in ids[..i]
    {
      if i > 0 {
        assert ids[i] == rest[i - 1] && ids[..i] == [u] + rest[..i - 1];
        assert j in keys + {u} || j in rest[..i - 1];
      }
    }
  }

  /** A line without task ids is accepted exactly when it fits; entry i gets the i-th of those ids. */
  lemma {:induction false} HandOutExact(m: Hosts, entries: seq<string>, num: int)
    ensures HandOut(m, entries, num).1 == BEMAP_SUCCESS <==> entries == [] || num <= 0 || |m| + |entries| <= num
    ensures Extends(m, HandOut(m, entries, num).0)
    ensures HandOut(m, entries, num).1 == BEMAP_SUCCESS ==>
              var m', ids := HandOut(m, entries, num).0, HandedOut(m.Keys, |entries|);
              |m'| == |m| + |entries| && forall i :: 0 <= i < |ids| ==> ids[i] in m' && m'[ids[i]] == entries[i]
    decreases |entries|
  {
    if entries != [] && !(num > 0 && |m| >= num) {
      var u := Unused(m.Keys, 0);
      UnusedIsLeast(m.Keys, 0);
      var m1 := m[u := entries[0]];
      assert m1.Keys == m.Keys + {u};
      HandOutExact(m1, entries[1..], num);
      var ids := HandedOut(m.Keys, |entries|);
      assert ids[1..] == HandedOut(m1.Keys, |entries[1..]|);
      AssignFirst(m, ids, entries, HandOut(m1, entries[1..], num).0);
    }
  }

  /** Ids handed out to hosts leave no holes: from a gapless map, a gapless map. */
  lemma {:induction false} HandOutGapless(m: Hosts, entries: seq<string>, num: int)
    requires Contiguous(m, 0)
    ensures Contiguous(HandOut(m, entries, num).0, 0)
    decreases |entries|
  {
    if entries != [] && !(num > 0 && |m| >= num) {
      AppendGapless(m, entries[0]);
      HandOutGapless(m[|m| := entries[0]], entries[1..], num);
    }
  }

  lemma AppendGapless(m: Hosts, host: string)
    requires Contiguous(m, 0)
    ensures Unused(m.Keys, 0) == |m| && Contiguous(m[|m| := host], 0)
  {
    assert forall j :: 0 <= j < |m| ==> Range(0, |m|).Has(j) && j in m.Keys;
    UnusedUnique(m.Keys, 0, |m|);
    var m' := m[|m| := host];
    assert m'.Keys == m.Keys + {|m|};
    assert |m'| == |m| + 1;
  }

  /** A set of non-negative ids whose largest is below its size is a range from zero, and the other way round. */
  lemma MaxBelowSizeIff(m: Hosts)
    requires NonNegative(m)
    ensures (forall k :: k in m ==> k < |m|) <==> Contiguous(m, 0)
  {
    if forall k :: k in m ==> k < |m| {
      assert m.Keys <= Range(0, |m|).Ids();
      RangeSize(0, |m|);
      SubsetSameSize(m.Keys, Range(0, |m|).Ids());
    }
  }

  lemma SubsetSameSize(a: set<int>, b: set<int>)
    requires a <= b && |a| == |b|
    ensures a == b
  {
    var d := b - a;
    assert b == a + d && |b| == |a| + |d|;
  }

  // ----- the class -----

  function Greatest(s: set<int>): (m: int)
    requires s != {}
    ensures m in s && forall y :: y in s ==> y <= m
  {
    GreatestExists(s);
    var m :| m in s && forall y :: y in s ==> y <= m;
    m
  }

  lemma GreatestExists(s: set<int>)
    requires s != {}
    ensures exists x :: x in s && forall y :: y in s ==> y <= x
  {
    var q := Enumerate(s);
    EnumerateAscends(s);
    assert q != [];
    var x := q[|q| - 1];
    assert x in Elements(q);
    forall y | y in s
      ensures y <= x
    {
      assert y in Elements(q);
    }
  }

  class BEMap {
    var hosts: Hosts
    var firstEmpty: int
    var expandedRange: seq<int>
    var hostEntries: seq<string>
    var hostCnt: int
    var freeForm: seq<int>
    var taskCnt: int

    /** Ids are non-negative, and all ids below the cursor are taken. */
    ghost predicate Valid()
      reads this
    {
      NonNegative(hosts) && 0 <= firstEmpty && forall j :: 0 <= j < firstEmpty ==> j in hosts
    }

    ghost predicate Cleared()
      reads this
    {
      expandedRange == [] && hostEntries == [] && hostCnt == 0 && freeForm == [] && taskCnt == 0
    }

    constructor ()
      ensures Valid() && Cleared() && hosts == map[]
    {
      hosts, firstEmpty := map[], 0;
      expandedRange, hostEntries, hostCnt, freeForm, taskCnt := [], [], 0, [], 0;
    }

    method ClearLineInfo()
      modifies this`expandedRange, this`hostEntries, this`hostCnt, this`freeForm, this`taskCnt
      ensures Cleared()
    {
      expandedRange, hostEntries, hostCnt, freeForm, taskCnt := [], [], 0, [], 0;
    }

    method GenerateHostRange(h: HostRegion)
      requires GoodHost(h) && Cleared()
      modifies this`expandedRange, this`hostCnt
      ensures expandedRange == if h.range.NoRange? then [] else Progression(h.range.first, h.range.last, h.range.stride)
      ensures hostCnt == if h.range.NoRange? then h.repetition else |expandedRange| * h.repetition
    {
      hide Progression;
      if h.range.NoRange? {
        hostCnt := h.repetition;
      } else {
        var begin := h.range.first;
        assert [] + Progression(begin, h.range.last, h.range.stride)
               == Progression(begin, h.range.last, h.range.stride);
        while begin <= h.range.last
          invariant expandedRange + Progression(begin, h.range.last, h.range.stride)
                    == Progression(h.range.first, h.range.last, h.range.stride)
          invariant hostCnt == |expandedRange|
          decreases h.range.last - begin
        {
          ProgressionStep(expandedRange, begin, h.range.last, h.range.stride);
          expandedRange := expandedRange + [begin];
          hostCnt := hostCnt + 1;
          begin := begin + h.range.stride;
        }
        ProgressionStep(expandedRange, begin, h.range.last, h.range.stride);
        hostCnt := hostCnt * h.repetition;
      }
    }

    method GenerateHostEntries(h: HostRegion)
      requires GoodHost(h) && hostEntries == []
      requires expandedRange
               == if h.range.NoRange? then [] else Progression(h.range.first, h.range.last, h.range.stride)
      modifies this`hostEntries
      ensures hostEntries == Entries(h) && SpelledOut(h, hostEntries)
    {
      hide Padded, SpelledOut;
      EntriesSpelledOut(h);
      if expandedRange == [] {
        for i := 0 to h.repetition
          invariant hostEntries == Repeat(h.front + h.tail, i)
        {
          hostEntries := hostEntries + [h.front + h.tail];
        }
      } else {
        var all := expandedRange;
        assert all[0..] == all;
        for k := 0 to |all|
          invariant hostEntries + EntriesOver(h, all[k..]) == EntriesOver(h, all)
        {
          var name := h.front + Padded(if all[k] < 0 then 0 else all[k], h.range.digits) + h.tail;
          RepeatEntries(name, h.repetition);
          EntriesStep(h, all, k, hostEntries);
        }
        assert hostEntries + [] == hostEntries;
      }
    }

    method RepeatEntries(name: string, n: nat)
      modifies this`hostEntries
      ensures hostEntries == old(hostEntries) + Repeat(name, n)
    {
      for i := 0 to n
        invariant hostEntries == old(hostEntries) + Repeat(name, i)
      {
        hostEntries := hostEntries + [name];
      }
    }

    method GenerateTaskRange(t: TaskRegion)
      requires GoodTasks(t) && freeForm == (if t.TaskList? then t.ids else []) && taskCnt == 0
      modifies this`freeForm, this`taskCnt
      ensures freeForm == Tasks(t) && taskCnt == |freeForm|
    {
      hide Progression;
      if !t.TaskRange? {
        taskCnt := |freeForm|;
      } else {
        var begin, stride := t.first, if t.stride.None? then 1 else t.stride.width;
        assert [] + Progression(begin, t.last, stride) == Progression(begin, t.last, stride);
        while begin <= t.last
          invariant freeForm + Progression(begin, t.last, stride) == Tasks(t)
          invariant taskCnt == |freeForm|
          decreases t.last - begin
        {
          ProgressionStep(freeForm, begin, t.last, stride);
          freeForm := freeForm + [begin];
          taskCnt := taskCnt + 1;
          begin := begin + stride;
        }
        ProgressionStep(freeForm, begin, t.last, stride);
      }
    }

    /** The cursor search: from the first id that may be free up to the largest id, else one past it. */
    method NextId() returns (index: int)
      requires Valid()
      modifies this`firstEmpty
      ensures index == Unused(hosts.Keys, 0)
      ensures 0 <= firstEmpty <= index + 1 && forall j :: 0 <= j < firstEmpty ==> j in hosts || j == index
    {
      if |hosts| > 0 {
        assert hosts.Keys != {};
        var maxId := Greatest(hosts.Keys);
        index := firstEmpty;
        while index < maxId
          invariant index >= firstEmpty == old(firstEmpty)
          invariant forall j :: 0 <= j < index ==> j in hosts || j >= maxId
          invariant index > firstEmpty ==> index <= maxId
        {
          if index !in hosts {
            firstEmpty := index + 1;
            UnusedUnique(hosts.Keys, 0, index);
            return;
          }
          index := index + 1;
        }
        index := maxId + 1;
        assert forall j :: 0 <= j < index ==> j in hosts.Keys;
        UnusedUnique(hosts.Keys, 0, index);
      } else {
        index := 0;
        firstEmpty := index + 1;
        UnusedUnique(hosts.Keys, 0, 0);
      }
    }

    /** Every host without a task id gets the least id not in use. */
    method HandOutIds(num: int) returns (rc: int)
      requires Valid()
      modifies this`hosts, this`firstEmpty
      ensures Valid() && (hosts, rc) == HandOut(old(hosts), hostEntries, num)
    {
      assert hostEntries[0..] == hostEntries;
      for i := 0 to |hostEntries|
        invariant Valid() && HandOut(hosts, hostEntries[i..], num) == HandOut(old(hosts), hostEntries, num)
      {
        if num > 0 && |hosts| >= num {
          return BEMAP_FULL;
        }
        assert hostEntries[i..][0] == hostEntries[i] && hostEntries[i..][1..] == hostEntries[i + 1..];
        UnusedIsLeast(hosts.Keys, 0);
        var index := NextId();
        hosts := hosts[index := hostEntries[i]];
      }
      return BEMAP_SUCCESS;
    }

    /** The iterator over host entries moves with the one over task ids and never runs off the end. */
    method AssignIds(num: int) returns (rc: int)
      requires Valid() && |freeForm| == |hostEntries|
      modifies this`hosts
      ensures Valid() && (hosts, rc) == Assign(old(hosts), freeForm, hostEntries, num)
    {
      assert hostEntries[0..] == hostEntries && freeForm[0..] == freeForm;
      for i := 0 to |freeForm|
        invariant Valid()
        invariant Assign(hosts, freeForm[i..], hostEntries[i..], num)
                  == Assign(old(hosts), freeForm, hostEntries, num)
      {
        assert freeForm[i..][0] == freeForm[i] && freeForm[i..][1..] == freeForm[i + 1..];
        assert hostEntries[i..][0] == hostEntries[i] && hostEntries[i..][1..] == hostEntries[i + 1..];
        if freeForm[i] < 0 || freeForm[i] in hosts {
          return BEMAP_ERROR;
        }
        if num > 0 && |hosts| >= num {
          return BEMAP_FULL;
        }
        hosts := hosts[freeForm[i] := hostEntries[i]];
      }
      return BEMAP_SUCCESS;
    }

    method ExpandLine(line: Line, num: int) returns (rc: int)
      requires Valid() && Cleared()
      modifies this
      ensures Valid() && (hosts, rc) == Expand(old(hosts), line, num)
    {
      if line.BadForm? || !GoodHost(line.host) {
        return BEMAP_ERROR;
      }
      GenerateHostRange(line.host);
      GenerateHostEntries(line.host);
      if !GoodTasks(line.task) {
        return BEMAP_ERROR;
      }
      if line.task.TaskList? {
        freeForm := line.task.ids;
      }
      GenerateTaskRange(line.task);
      EntryCount(line.host);
      if taskCnt > 0 {
        if hostCnt != taskCnt {
          return BEMAP_ERROR;
        }
        rc := AssignIds(num);
      } else {
        rc := HandOutIds(num);
      }
    }

    /** Reading a host file succeeds exactly when every line could be used and the ids form a range from zero. */
    method Input(lines: seq<Line>, num: int) returns (rc: int)
      requires NonNegative(hosts)
      modifies this
      ensures Valid() && hosts == ReadLines(old(hosts), lines, num).0
      ensures rc == SCI_SUCCESS <==>
                ReadLines(old(hosts), lines, num).1 == BEMAP_SUCCESS && |hosts| > 0 && Contiguous(hosts, 0)
    {
      hide Expand;
      ClearLineInfo();
      firstEmpty := 0;
      var i := 0;
      assert lines[0..] == lines;
      while i < |lines| && !(num > 0 && |hosts| >= num)
        invariant 0 <= i <= |lines| && Valid() && Cleared()
        invariant ReadLines(hosts, lines[i..], num) == ReadLines(old(hosts), lines, num)
      {
        assert lines[i..][0] == lines[i] && lines[i..][1..] == lines[i + 1..];
        var code := ExpandLine(lines[i], num);
        if code == BEMAP_FULL {
          break;
        } else if code != BEMAP_SUCCESS {
          return SCI_ERR_INVALID_HOSTFILE;
        }
        ClearLineInfo();
        i := i + 1;
      }
      MaxBelowSizeIff(hosts);
      var size := |hosts|;
      if size == 0 {
        return SCI_ERR_INVALID_HOSTFILE;
      }
      assert hosts.Keys != {};
      if Greatest(hosts.Keys) >= size {
        return SCI_ERR_INVALID_HOSTFILE;
      }
      return SCI_SUCCESS;
    }
  }

  lemma EntriesStep(h: HostRegion, ids: seq<int>, k: nat, entries: seq<string>)
    requires h.repetition > 0 && h.range.HostRange? && k < |ids|
    ensures forall before: seq<string> ::
              entries
              == before + Repeat(h.front + Padded(if ids[k] < 0 then 0 else ids[k], h.range.digits) + h.tail,
                                 h.repetition)
              ==> entries + EntriesOver(h, ids[k + 1..]) == before + EntriesOver(h, ids[k..])
  {
    assert ids[k..][0] == ids[k] && ids[k..][1..] == ids[k + 1..];
  }

  lemma {:induction false} RangeEntryCount(h: HostRegion, ids: seq<int>)
    requires h.repetition > 0 && h.range.HostRange?
    ensures |EntriesOver(h, ids)| == |ids| * h.repetition
  {
    if ids != [] { RangeEntryCount(h, ids[1..]); }
  }

  /** How many different hosts a line names. */
  function NameCount(h: HostRegion): nat
    requires GoodHost(h)
  {
    if h.range.NoRange? then 1 else (h.range.last - h.range.first) / h.range.stride + 1
  }

  /** The host count of a line is the number of its entries. */
  lemma EntryCount(h: HostRegion)
    requires GoodHost(h)
    ensures |Entries(h)| == if h.range.NoRange? then h.repetition
                            else |Progression(h.range.first, h.range.last, h.range.stride)| * h.repetition
    ensures |Entries(h)| == NameCount(h) * h.repetition
  {
    if h.range.HostRange? {
      RangeEntryCount(h, Progression(h.range.first, h.range.last, h.range.stride));
      ProgressionCount(h.range.first, h.range.last, h.range.stride);
    }
  }

  // ----- what the entries look like -----

  /** An arithmetic progression from the first to the last number that fits. */
  lemma {:induction false} ProgressionCount(first: int, last: int, stride: int)
    requires stride > 0
    ensures first > last ==> Progression(first, last, stride) == []
    ensures first <= last ==> |Progression(first, last, stride)| == (last - first) / stride + 1
    decreases last - first
  {
    if first <= last {
      ProgressionCount(first + stride, last, stride);
      var n := last - first;
      if n < stride { DivModUnique(n, stride, 0, n); } else { DivShift(n - stride, stride); }
    }
  }

  lemma {:induction false} ProgressionAt(first: int, last: int, stride: int, i: nat)
    requires stride > 0 && i < |Progression(first, last, stride)|
    ensures Progression(first, last, stride)[i] == first + i * stride <= last
    decreases last - first
  {
    if i > 0 {
      ProgressionAt(first + stride, last, stride, i - 1);
      assert first + stride + (i - 1) * stride == first + i * stride;
    }
  }

  /** The ids of a line: the listed ones in their order, or those of the range from its first to its last. */
  lemma TasksAt(t: TaskRegion, i: nat)
    requires GoodTasks(t)
    ensures t.NoTasks? ==> Tasks(t) == []
    ensures t.TaskList? ==> |Tasks(t)| == |t.ids| && (i < |t.ids| ==> Tasks(t)[i] == t.ids[i])
    ensures t.TaskRange? ==>
              var width := if t.stride.None? then 1 else t.stride.width;
              && |Tasks(t)| == (if t.first > t.last then 0 else (t.last - t.first) / width + 1)
              && (i < |Tasks(t)| ==> Tasks(t)[i] == t.first + i * width)
  {
    if t.TaskRange? {
      var width := if t.stride.None? then 1 else t.stride.width;
      ProgressionCount(t.first, t.last, width);
      if i < |Tasks(t)| { ProgressionAt(t.first, t.last, width, i); }
    }
  }

  predicate Digits(s: string) {
    forall i :: 0 <= i < |s| ==> '0' <= s[i] <= '9'
  }

  /** The number that digits say, read from left to right. */
  function Value(s: string, acc: int): int {
    if s == [] then acc else Value(s[1..], 10 * acc + (s[0] as int - '0' as int))
  }

  lemma {:induction false} ValueSnoc(s: string, c: char, acc: int)
    ensures Value(s + [c], acc) == 10 * Value(s, acc) + (c as int - '0' as int)
    decreases |s|
  {
    if s == [] {
      assert s + [c] == [c] && [c][1..] == [];
    } else {
      ValueSnoc(s[1..], c, 10 * acc + (s[0] as int - '0' as int));
      assert (s + [c])[1..] == s[1..] + [c];
    }
  }

  /** The decimal numeral of `n`, with no zero in front unless it is zero. */
  lemma {:induction false} DecimalReads(n: nat)
    ensures Digits(Decimal(n)) && Value(Decimal(n), 0) == n && Decimal(n) != []
    ensures n > 0 ==> Decimal(n)[0] != '0'
    ensures n == 0 ==> Decimal(n) == "0"
  {
    if n < 10 {
      assert Decimal(n)[1..] == [];
    } else {
      DecimalReads(n / 10);
      ValueSnoc(Decimal(n / 10), ('0' as int + n % 10) as char, 0);
    }
  }

  /** A decimal numeral of at least `digits` digits, and of no more than it takes. */
  ghost predicate Numeral(s: string, n: int, digits: nat) {
    && Digits(s) && Value(s, 0) == n && s != [] && |s| >= digits
    && (|s| > digits ==> s[0] != '0' || s == "0")
  }

  lemma {:induction false} ValueZeros(k: nat, s: string)
    ensures Value(seq(k, i => '0') + s, 0) == Value(s, 0)
    decreases k
  {
    var zeros := seq(k, i => '0');
    if k == 0 {
      assert zeros + s == s;
    } else {
      ValueZeros(k - 1, s);
      assert (zeros + s)[1..] == seq(k - 1, i => '0') + s;
    }
  }

  lemma PaddedReads(n: nat, digits: nat)
    ensures Numeral(Padded(n, digits), n, digits)
  {
    var s := Decimal(n);
    DecimalReads(n);
    if |s| < digits { ValueZeros(digits - |s|, s); }
  }

  lemma {:induction false} RangeEntryAt(h: HostRegion, ids: seq<int>, i: nat, j: nat)
    requires h.repetition > 0 && h.range.HostRange? && i < |ids| && j < h.repetition
    ensures 0 <= i * h.repetition + j < |EntriesOver(h, ids)|
    ensures EntriesOver(h, ids)[i * h.repetition + j]
            == h.front + Padded(if ids[i] < 0 then 0 else ids[i], h.range.digits) + h.tail
    decreases |ids|
  {
    hide Padded;
    RangeEntryCount(h, ids[1..]);
    MulBounds(|ids| - 1, h.repetition);
    if i > 0 {
      RangeEntryAt(h, ids[1..], i - 1, j);
      assert i * h.repetition == h.repetition + (i - 1) * h.repetition;
    }
  }

  /** Every entry of a line, by its place: front, the number in the range, tail, each as often as it is repeated. */
  lemma EntryAt(h: HostRegion, i: nat, j: nat) returns (name: string)
    requires GoodHost(h) && i < NameCount(h) && j < h.repetition
    ensures 0 <= i * h.repetition + j < |Entries(h)|
    ensures Entries(h)[i * h.repetition + j] == h.front + name + h.tail
    ensures h.range.NoRange? ==> name == ""
    ensures h.range.HostRange? ==> Numeral(name, h.range.first + i * h.range.stride, h.range.digits)
  {
    hide Padded, Numeral;
    if h.range.NoRange? {
      name := "";
      assert i * h.repetition == 0;
      assert h.front + "" + h.tail == h.front + h.tail;
    } else {
      var ids := Progression(h.range.first, h.range.last, h.range.stride);
      ProgressionCount(h.range.first, h.range.last, h.range.stride);
      ProgressionAt(h.range.first, h.range.last, h.range.stride, i);
      MulBounds(i, h.range.stride);
      RangeEntryAt(h, ids, i, j);
      name := Padded(ids[i], h.range.digits);
      PaddedReads(ids[i], h.range.digits);
    }
  }

  /** The entry for repetition `j` of name `i`. */
  ghost predicate Spells(h: HostRegion, entries: seq<string>, i: int, j: int) {
    exists name ::
      && 0 <= i * h.repetition + j < |entries|
      && entries[i * h.repetition + j] == h.front + name + h.tail
      && (h.range.NoRange? ==> name == "")
      && (h.range.HostRange? ==> Numeral(name, h.range.first + i * h.range.stride, h.range.digits))
  }

  ghost predicate SpelledOut(h: HostRegion, entries: seq<string>)
    requires GoodHost(h)
  {
    && |entries| == NameCount(h) * h.repetition
    && forall i, j :: 0 <= i < NameCount(h) && 0 <= j < h.repetition ==> Spells(h, entries, i, j)
  }

  lemma EntriesSpelledOut(h: HostRegion)
    requires GoodHost(h)
    ensures SpelledOut(h, Entries(h))
  {
    hide Entries, Numeral, NameCount;
    EntryCount(h);
    forall i, j | 0 <= i < NameCount(h) && 0 <= j < h.repetition
      ensures Spells(h, Entries(h), i, j)
    {
      var name := EntryAt(h, i, j);
      assert Entries(h)[i * h.repetition + j] == h.front + name + h.tail;
    }
  }
}
