/** The group table on the wire: three nested loops of counts, keys and members. */
module TableCodec {
  import opened SortedSets
  import opened Ranges
  import opened Groups
  import opened Tables
  import opened TableLoops
  import opened DistributedGroups
  import opened Packing

  // ----- the integers of a packed table -----

  function RangesOf(m: RawSlices, c: int): seq<Range> {
    if c in m then m[c] else []
  }

  /** A successor, the number of its back ends, and the back ends. */
  function SliceInts(c: int, r: seq<Range>): seq<int> {
    [c, |Listing(r)|] + Listing(r)
  }

  function SlicesInts(keys: seq<int>, m: RawSlices): seq<int> {
    if keys == [] then [] else SliceInts(keys[0], RangesOf(m, keys[0])) + SlicesInts(keys[1..], m)
  }

  /** A group, the number of its slices, and the slices in key order. */
  function GroupInts(g: int, m: RawSlices): seq<int> {
    [g, |m|] + SlicesInts(Enumerate(m.Keys), m)
  }

  function GroupsInts(keys: seq<int>, gi: RawGroups): seq<int> {
    if keys == [] then [] else GroupInts(keys[0], RawSlicesOf(gi, keys[0])) + GroupsInts(keys[1..], gi)
  }

  function TableInts(parentId: int, gi: RawGroups): seq<int> {
    [parentId, |gi|] + GroupsInts(Enumerate(gi.Keys), gi)
  }

  lemma AllInt32Parts(a: seq<int>, b: seq<int>)
    ensures AllInt32(a + b) <==> AllInt32(a) && AllInt32(b)
  {
    if AllInt32(a + b) {
      assert forall i :: 0 <= i < |a| ==> a[i] == (a + b)[i];
      assert forall i :: 0 <= i < |b| ==> b[i] == (a + b)[|a| + i];
    }
  }

  lemma Assoc(a: seq<int>, b: seq<int>, c: seq<int>)
    ensures a + b + c == a + (b + c)
  {
  }

  // ----- packing -----

  method PackSlice(p: Packer, c: int, r: seq<Range>, ghost out: seq<int>)
    requires Canonical(r) && Holds(p, out) && AllInt32(SliceInts(c, r))
    modifies p, p.msgBuf
    ensures Holds(p, out + SliceInts(c, r))
    ensures p.msgBuf == old(p.msgBuf) || fresh(p.msgBuf)
  {
    hide Holds, Canonical, Enumerate, Listing;
    ghost var all := Listing(r);
    AllInt32Parts([c, |all|], all);
    assert [c, |all|][0] == c && [c, |all|][1] == |all|;
    PackNext(p, c, out);
    var grp := new Group.Of(r);
    SizeIsListing(r);
    var size := grp.Size();
    PackNext(p, size, out + [c]);
    var ids, _ := Iterate(grp);
    PackIds(p, ids, out + [c] + [size]);
    assert out + [c] + [size] + ids == out + SliceInts(c, r);
  }

  method PackIds(p: Packer, ids: seq<int>, ghost out: seq<int>)
    requires Holds(p, out) && AllInt32(ids)
    modifies p, p.msgBuf
    ensures Holds(p, out + ids)
    ensures p.msgBuf == old(p.msgBuf) || fresh(p.msgBuf)
  {
    hide Holds;
    assert out + ids[..0] == out;
    for k := 0 to |ids|
      invariant Holds(p, out + ids[..k])
      invariant p.msgBuf == old(p.msgBuf) || fresh(p.msgBuf)
    {
      PackNext(p, ids[k], out + ids[..k]);
      assert out + ids[..k] + [ids[k]] == out + ids[..k + 1];
    }
    assert ids[..|ids|] == ids;
  }

  lemma SizeIsListing(r: seq<Range>)
    requires Canonical(r)
    ensures |Members(r)| == |Listing(r)| && Enumerate(Members(r)) == Listing(r)
  {
    ListingIsEnumeration(r);
  }

  lemma SlicesIntsAt(keys: seq<int>, m: RawSlices, i: nat)
    requires i < |keys|
    ensures SlicesInts(keys[i..], m) == SliceInts(keys[i], RangesOf(m, keys[i])) + SlicesInts(keys[i + 1..], m)
  {
    assert keys[i..][0] == keys[i] && keys[i..][1..] == keys[i + 1..];
  }

  lemma GroupsIntsAt(keys: seq<int>, gi: RawGroups, i: nat)
    requires i < |keys|
    ensures GroupsInts(keys[i..], gi) == GroupInts(keys[i], RawSlicesOf(gi, keys[i])) + GroupsInts(keys[i + 1..], gi)
  {
    assert keys[i..][0] == keys[i] && keys[i..][1..] == keys[i + 1..];
  }

  method PackGroup(p: Packer, g: int, m: RawSlices, ghost out: seq<int>)
    requires WellFormed(m) && Holds(p, out) && AllInt32(GroupInts(g, m))
    modifies p, p.msgBuf
    ensures Holds(p, out + GroupInts(g, m))
    ensures p.msgBuf == old(p.msgBuf) || fresh(p.msgBuf)
  {
    hide Holds, Canonical, Enumerate, SliceInts, SlicesInts;
    var keys := Enumerate(m.Keys);
    AllInt32Parts([g, |m|], SlicesInts(keys, m));
    assert [g, |m|][0] == g && [g, |m|][1] == |m|;
    PackNext(p, g, out);
    PackNext(p, |m|, out + [g]);
    ghost var all := out + GroupInts(g, m);
    ghost var done := out + [g] + [|m|];
    assert keys[0..] == keys && done + SlicesInts(keys, m) == all;
    for j := 0 to |keys|
      invariant Holds(p, done) && AllInt32(SlicesInts(keys[j..], m))
      invariant done + SlicesInts(keys[j..], m) == all
      invariant p.msgBuf == old(p.msgBuf) || fresh(p.msgBuf)
    {
      EnumerateMember(m.Keys, j);
      SlicesIntsAt(keys, m, j);
      ghost var s := SliceInts(keys[j], m[keys[j]]);
      AllInt32Parts(s, SlicesInts(keys[j + 1..], m));
      Assoc(done, s, SlicesInts(keys[j + 1..], m));
      PackSlice(p, keys[j], m[keys[j]], done);
      done := done + s;
    }
    NoSlicesInts(keys, m);
    assert done + [] == done;
  }

  lemma NoSlicesInts(keys: seq<int>, m: RawSlices)
    ensures SlicesInts(keys[|keys|..], m) == []
  {
  }

  /** The packed message is exactly the table's integers in network byte order. */
  method PackMsg(d: DistributedGroup) returns (content: seq<byte>)
    requires d.Valid() && AllInt32(TableInts(d.parentId, d.generalInfo))
    ensures content == IntsToBytes(TableInts(d.parentId, d.generalInfo))
  {
    hide Holds, Canonical, Enumerate, GroupInts, GroupsInts, AllWellFormed, WellFormed, IntsToBytes;
    var p := new Packer();
    EmptyPacker(p);
    var gi := d.generalInfo;
    var keys := Enumerate(gi.Keys);
    AllInt32Parts([d.parentId, |gi|], GroupsInts(keys, gi));
    assert [d.parentId, |gi|][0] == d.parentId && [d.parentId, |gi|][1] == |gi|;
    PackNext(p, d.parentId, []);
    PackNext(p, |gi|, [] + [d.parentId]);
    ghost var all := TableInts(d.parentId, gi);
    ghost var done := [] + [d.parentId] + [|gi|];
    assert keys[0..] == keys && done + GroupsInts(keys, gi) == all;
    for i := 0 to |keys|
      invariant Holds(p, done) && AllInt32(GroupsInts(keys[i..], gi))
      invariant done + GroupsInts(keys[i..], gi) == all
      invariant fresh(p) && fresh(p.msgBuf)
    {
      EnumerateMember(gi.Keys, i);
      GroupAt(gi, keys[i]);
      GroupsIntsAt(keys, gi, i);
      ghost var s := GroupInts(keys[i], gi[keys[i]]);
      AllInt32Parts(s, GroupsInts(keys[i + 1..], gi));
      Assoc(done, s, GroupsInts(keys[i + 1..], gi));
      PackGroup(p, keys[i], gi[keys[i]], done);
      done := done + s;
    }
    NoGroupsInts(keys, gi);
    assert done + [] == done;
    content := Contents(p, done);
  }

  lemma NoGroupsInts(keys: seq<int>, gi: RawGroups)
    ensures GroupsInts(keys[|keys|..], gi) == []
  {
  }

  lemma EmptyPacker(p: Packer)
    requires p.Valid() && p.Packed() == []
    ensures Holds(p, [])
  {
  }

  /** The bytes handed to the message: the buffer up to the packed length. */
  method Contents(p: Packer, ghost out: seq<int>) returns (content: seq<byte>)
    requires Holds(p, out)
    ensures AllInt32(out) && content == IntsToBytes(out)
  {
    content := p.msgBuf[..p.msgLen];
  }

  // ----- unpacking -----

  /** The unread bytes are the integers `ints` followed by `tail`. */
  ghost predicate Ahead(u: Unpacker, ints: seq<int>, tail: seq<byte>)
    reads u
  {
    u.Valid() && AllInt32(ints) && u.Rest() == IntsToBytes(ints) + tail
  }

  method TakeInt(u: Unpacker, ghost v: int, ghost more: seq<int>, ghost tail: seq<byte>) returns (value: int)
    requires Ahead(u, [v] + more, tail)
    modifies u
    ensures value == v && Ahead(u, more, tail)
  {
    value := u.UnpackNext([v] + more, tail);
    assert ([v] + more)[1..] == more;
  }

  /** Reading a slice member by member rebuilds its range list. */
  method UnpackSlice(u: Unpacker, ghost c: int, ghost r: seq<Range>, ghost more: seq<int>, ghost tail: seq<byte>)
    returns (childId: int, slice: seq<Range>)
    requires Canonical(r) && Ahead(u, SliceInts(c, r) + more, tail)
    modifies u
    ensures childId == c && slice == r && Ahead(u, more, tail)
  {
    hide Ahead, Canonical, Listing, Members;
    ghost var all := Listing(r);
    assert SliceInts(c, r) + more == [c] + ([|all|] + (all + more));
    childId := TakeInt(u, c, [|all|] + (all + more), tail);
    var size3 := TakeInt(u, |all|, all + more, tail);
    var group := new Group();
    assert all[0..] == all;
    NoneYet(all);
    for k := 0 to size3
      invariant Ahead(u, all[k..] + more, tail)
      invariant fresh(group) && group.Valid() && group.Set() == Elements(all[..k])
    {
      MemberStep(all, k, more);
      var id := TakeInt(u, all[k], all[k + 1..] + more, tail);
      group.AddId(id);
    }
    assert all[|all|..] + more == more && all[..|all|] == all;
    GroupSetOf(group);
    Rebuilt(group.rangeList, r);
    slice := group.rangeList;
  }

  lemma NoneYet(all: seq<int>)
    ensures Elements(all[..0]) == {}
  {
  }

  lemma MemberStep(all: seq<int>, k: nat, more: seq<int>)
    requires k < |all|
    ensures all[k..] + more == [all[k]] + (all[k + 1..] + more)
    ensures Elements(all[..k + 1]) == Elements(all[..k]) + {all[k]}
  {
    assert all[..k + 1] == all[..k] + [all[k]];
  }

  lemma Rebuilt(s: seq<Range>, r: seq<Range>)
    requires Canonical(s) && Canonical(r) && Members(s) == Elements(Listing(r))
    ensures s == r
  {
    ListingAscends(r);
    CanonicalUnique(s, r);
  }

  function OnlyRaw<T>(m: map<int, T>, done: set<int>): map<int, T> {
    map c | c in m && c in done :: m[c]
  }

  lemma OnlyRawStep<T>(m: map<int, T>, done: set<int>, k: int)
    requires k in m
    ensures OnlyRaw(m, done + {k}) == OnlyRaw(m, done)[k := m[k]]
  {
  }

  lemma OnlyRawAll<T>(m: map<int, T>)
    ensures OnlyRaw(m, m.Keys) == m && OnlyRaw(m, {}) == map[]
  {
  }

  /** Unpacked slices replace those of the same successor and group and join the others. */
  function LayOver(gi: RawGroups, g: int, m: RawSlices): RawGroups {
    if m == map[] then gi else gi[g := RawSlicesOf(gi, g) + m]
  }

  method UnpackGroup(u: Unpacker, d: DistributedGroup, ghost g: int, ghost m: RawSlices,
                     ghost more: seq<int>, ghost tail: seq<byte>)
    requires WellFormed(m) && Ahead(u, GroupInts(g, m) + more, tail)
    modifies u, d`generalInfo
    ensures d.generalInfo == LayOver(old(d.generalInfo), g, m) && Ahead(u, more, tail)
  {
    hide Ahead, Canonical, Enumerate, SliceInts, SlicesInts, LayOver, OnlyRaw, Done;
    ghost var keys := Enumerate(m.Keys);
    ghost var gi := d.generalInfo;
    assert GroupInts(g, m) + more == [g] + ([|m|] + (SlicesInts(keys, m) + more));
    var groupId := TakeInt(u, g, [|m|] + (SlicesInts(keys, m) + more), tail);
    var size2 := TakeInt(u, |m|, SlicesInts(keys, m) + more, tail);
    EnumerateLength(m.Keys);
    DoneAll(m.Keys);
    OnlyRawAll(m);
    NothingLaid(gi, g);
    assert keys[0..] == keys;
    for j := 0 to size2
      invariant Ahead(u, SlicesInts(keys[j..], m) + more, tail)
      invariant d.generalInfo == LayOver(gi, g, OnlyRaw(m, Done(m.Keys, j)))
    {
      DoneStep(m.Keys, j);
      OnlyRawStep(m, Done(m.Keys, j), keys[j]);
      LayOverStep(gi, g, OnlyRaw(m, Done(m.Keys, j)), keys[j], m[keys[j]]);
      SlicesIntsAt(keys, m, j);
      Assoc(SliceInts(keys[j], m[keys[j]]), SlicesInts(keys[j + 1..], m), more);
      var childId, slice := UnpackSlice(u, keys[j], m[keys[j]], SlicesInts(keys[j + 1..], m) + more, tail);
      d.PutSlice(groupId, childId, slice);
    }
    NoSlicesInts(keys, m);
    assert [] + more == more;
  }

  lemma NothingLaid(gi: RawGroups, g: int)
    ensures LayOver(gi, g, map[]) == gi
  {
  }

  lemma LayOverStep(gi: RawGroups, g: int, m: RawSlices, c: int, r: seq<Range>)
    ensures PutRawSlice(LayOver(gi, g, m), g, c, r) == LayOver(gi, g, m[c := r])
  {
    assert c in m[c := r];
    assert RawSlicesOf(LayOver(gi, g, m), g) == RawSlicesOf(gi, g) + m;
    assert (RawSlicesOf(gi, g) + m)[c := r] == RawSlicesOf(gi, g) + m[c := r];
  }

  /** The groups of a table that have at least one slice. */
  function WithSlices(gi: RawGroups): RawGroups {
    map g | g in gi && gi[g] != map[] :: gi[g]
  }

  /** A table with the groups of another laid over its own. */
  function Overlaid(was: RawGroups, gi: RawGroups): RawGroups {
    map g | g in was.Keys + WithSlices(gi).Keys :: RawSlicesOf(was, g) + RawSlicesOf(gi, g)
  }

  lemma OverlaidAt(was: RawGroups, gi: RawGroups, g: int)
    ensures g in Overlaid(was, gi) <==> g in was || RawSlicesOf(gi, g) != map[]
    ensures RawSlicesOf(Overlaid(was, gi), g) == RawSlicesOf(was, g) + RawSlicesOf(gi, g)
  {
  }

  lemma LayOverAt(gi: RawGroups, k: int, m: RawSlices, g: int)
    ensures g in LayOver(gi, k, m) <==> g in gi || (g == k && m != map[])
    ensures RawSlicesOf(LayOver(gi, k, m), g) == RawSlicesOf(gi, g) + if g == k then m else map[]
  {
    assert RawSlicesOf(gi, g) + map[] == RawSlicesOf(gi, g);
  }

  lemma OnlyRawAt(gi: RawGroups, done: set<int>, g: int)
    ensures RawSlicesOf(OnlyRaw(gi, done), g) == if g in done then RawSlicesOf(gi, g) else map[]
  {
  }

  lemma OverlaidStep(was: RawGroups, gi: RawGroups, done: set<int>, k: int)
    requires k in gi && k !in done
    ensures LayOver(Overlaid(was, OnlyRaw(gi, done)), k, gi[k]) == Overlaid(was, OnlyRaw(gi, done + {k}))
  {
    hide LayOver, Overlaid, OnlyRaw;
    var left, right := LayOver(Overlaid(was, OnlyRaw(gi, done)), k, gi[k]), Overlaid(was, OnlyRaw(gi, done + {k}));
    forall g
      ensures g in left <==> g in right
      ensures RawSlicesOf(left, g) == RawSlicesOf(right, g)
    {
      OverlaidStepAt(was, gi, done, k, g);
    }
    SameGroups(left, right);
  }

  lemma SameGroups(a: RawGroups, b: RawGroups)
    requires forall g :: g in a <==> g in b
    requires forall g :: RawSlicesOf(a, g) == RawSlicesOf(b, g)
    ensures a == b
  {
    forall g
      ensures g in a.Keys <==> g in b.Keys
    {
    }
    assert a.Keys == b.Keys;
    forall g | g in a
      ensures a[g] == b[g]
    {
      assert RawSlicesOf(a, g) == RawSlicesOf(b, g);
    }
  }

  lemma OverlaidStepAt(was: RawGroups, gi: RawGroups, done: set<int>, k: int, g: int)
    requires k in gi && k !in done
    ensures var left, right := LayOver(Overlaid(was, OnlyRaw(gi, done)), k, gi[k]),
                               Overlaid(was, OnlyRaw(gi, done + {k}));
            (g in left <==> g in right) && RawSlicesOf(left, g) == RawSlicesOf(right, g)
  {
    hide LayOver, Overlaid, OnlyRaw;
    OnlyRawAt(gi, done, g);
    OnlyRawAt(gi, done + {k}, g);
    OverlaidAt(was, OnlyRaw(gi, done), g);
    OverlaidAt(was, OnlyRaw(gi, done + {k}), g);
    LayOverAt(Overlaid(was, OnlyRaw(gi, done)), k, gi[k], g);
    assert RawSlicesOf(was, g) + map[] == RawSlicesOf(was, g);
    assert RawSlicesOf(was, g) + RawSlicesOf(gi, g) + map[] == RawSlicesOf(was, g) + RawSlicesOf(gi, g);
  }

  lemma OverlaidNothing(gi: RawGroups)
    ensures Overlaid(gi, map[]) == gi && Overlaid(map[], gi) == WithSlices(gi)
  {
    assert forall m: RawSlices :: m + map[] == m && map[] + m == m;
  }

  /**
   * Unpacking a packed table restores the parent id and, range for range, every slice it had, over whatever the
   * table held before; into a fresh one that is every group that has a slice. Groups without slices are lost, and
   * the caches are not rebuilt.
   */
  method UnpackMsg(d: DistributedGroup, content: seq<byte>, ghost parentId: int, ghost gi: RawGroups)
    requires AllWellFormed(gi) && AllInt32(TableInts(parentId, gi))
    requires IntsToBytes(TableInts(parentId, gi)) <= content
    modifies d`parentId, d`generalInfo
    ensures d.parentId == parentId && d.generalInfo == Overlaid(old(d.generalInfo), gi)
  {
    hide Ahead, AllWellFormed, WellFormed, Enumerate, GroupInts, GroupsInts, LayOver, OnlyRaw, Overlaid, Done;
    ghost var was := d.generalInfo;
    ghost var keys := Enumerate(gi.Keys);
    ghost var tail := content[|IntsToBytes(TableInts(parentId, gi))|..];
    var u := new Unpacker(content);
    Received(u, TableInts(parentId, gi), tail);
    assert TableInts(parentId, gi) == [parentId] + ([|gi|] + GroupsInts(keys, gi));
    var pid := TakeInt(u, parentId, [|gi|] + GroupsInts(keys, gi), tail);
    d.parentId := pid;
    var size1 := TakeInt(u, |gi|, GroupsInts(keys, gi), tail);
    EnumerateLength(gi.Keys);
    DoneAll(gi.Keys);
    OnlyRawAll(gi);
    OverlaidNothing(was);
    assert keys[0..] == keys;
    for i := 0 to size1
      invariant fresh(u) && Ahead(u, GroupsInts(keys[i..], gi), tail)
      invariant d.generalInfo == Overlaid(was, OnlyRaw(gi, Done(gi.Keys, i))) && d.parentId == parentId
    {
      DoneStep(gi.Keys, i);
      GroupAt(gi, keys[i]);
      OverlaidStep(was, gi, Done(gi.Keys, i), keys[i]);
      GroupsIntsAt(keys, gi, i);
      UnpackGroup(u, d, keys[i], gi[keys[i]], GroupsInts(keys[i + 1..], gi), tail);
    }
  }

  lemma Received(u: Unpacker, ints: seq<int>, tail: seq<byte>)
    requires u.Valid() && AllInt32(ints) && IntsToBytes(ints) <= u.Rest()
    requires tail == u.Rest()[|IntsToBytes(ints)|..]
    ensures Ahead(u, ints, tail)
  {
  }

  /** Packing one table and unpacking the message into a new one. */
  method RoundTrip(d: DistributedGroup) returns (copy: DistributedGroup)
    requires d.Valid() && AllInt32(TableInts(d.parentId, d.generalInfo))
    ensures fresh(copy) && copy.parentId == d.parentId && copy.generalInfo == WithSlices(d.generalInfo)
    ensures forall g, c :: Slice(Abs(copy.generalInfo), g, c) == Slice(Abs(d.generalInfo), g, c)
  {
    var content := PackMsg(d);
    copy := new DistributedGroup(-1);
    NoView(copy);
    UnpackMsg(copy, content, d.parentId, d.generalInfo);
    OverlaidNothing(d.generalInfo);
    SameSlices(d.generalInfo);
  }

  lemma NoView(d: DistributedGroup)
    requires d.View() == Empty
    ensures d.generalInfo == map[]
  {
    AbsKeys(d.generalInfo);
  }

  lemma SameSlices(gi: RawGroups)
    ensures forall g, c :: Slice(Abs(WithSlices(gi)), g, c) == Slice(Abs(gi), g, c)
  {
  }
}
