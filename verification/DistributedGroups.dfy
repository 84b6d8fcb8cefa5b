/** `DistributedGroup`: the routing table kept as maps of groups, updated in place. */
module DistributedGroups {
  import opened SortedSets
  import opened Ranges
  import opened Groups
  import opened Tables
  import opened TableAlgebra
  import opened TableEffects
  import opened TableLoops
  import Runs

  const SCI_SUCCESS: int := 0
  const SCI_ERR_GROUP_EMPTY: int := -2012

  /** The part of a slice inside a group, by two differences. */
  method Intersect(slice: seq<Range>, total: Group) returns (part: seq<Range>)
    requires Canonical(slice) && total.Valid()
    ensures Canonical(part) && Members(part) == Members(slice) * total.Set()
    ensures part == [] <==> Members(slice) * total.Set() == {}
  {
    var grp := new Group.Of(slice);
    var diff := new Group.Copy(grp);
    diff.DeleteGroup(total);
    var intersect := new Group.Copy(grp);
    intersect.DeleteGroup(diff);
    part := intersect.rangeList;
    assert Members(part) == Members(slice) * total.Set();
    EmptyList(part);
  }

  method Subtract(slice: seq<Range>, total: Group) returns (part: seq<Range>)
    requires Canonical(slice) && total.Valid()
    ensures Canonical(part) && Members(part) == Members(slice) - total.Set()
    ensures part == [] <==> Members(slice) - total.Set() == {}
  {
    var diff := new Group.Of(slice);
    diff.DeleteGroup(total);
    part := diff.rangeList;
    EmptyList(part);
  }

  /** A copy of the slice less the slice another group has for the same successor, if any. */
  method SubtractSlice(slice: seq<Range>, b: RawSlices, c: int) returns (part: seq<Range>)
    requires Canonical(slice) && WellFormed(b)
    ensures Canonical(part) && Members(part) == Members(slice) - Get(Sets(b), c)
    ensures part == [] <==> Members(slice) - Get(Sets(b), c) == {}
  {
    part := slice;
    EmptyList(part);
    if c in b {
      var other := new Group.Of(b[c]);
      part := Subtract(slice, other);
    }
  }

  /** A copy of the first slice with the second added. */
  method Join(slice: seq<Range>, other: seq<Range>) returns (uni: Group)
    requires Canonical(slice) && Canonical(other)
    ensures fresh(uni) && Canonical(uni.rangeList) && Members(uni.rangeList) == Members(slice) + Members(other)
  {
    var grp := new Group.Of(slice);
    uni := new Group.Copy(grp);
    var more := new Group.Of(other);
    uni.AddGroup(more);
  }

  lemma EmptyList(s: seq<Range>)
    requires Canonical(s)
    ensures s == [] <==> Members(s) == {}
  {
    if s != [] { HeadOfCanonical(s); }
  }

  method ListToGroup(list: seq<int>) returns (total: Group)
    ensures fresh(total) && total.Valid() && total.Set() == Elements(list)
  {
    total := new Group();
    for i := 0 to |list|
      invariant fresh(total) && total.Valid() && total.Set() == Elements(list[..i])
    {
      total.AddId(list[i]);
      assert list[..i + 1] == list[..i] + [list[i]];
    }
    assert list[..|list|] == list;
  }

  class DistributedGroup {
    var parentId: int
    var generalInfo: RawGroups
    var beInfo: map<int, int>
    var beListInfo: map<int, seq<int>>
    var successorInfo: map<int, int>
    var successorListInfo: map<int, seq<int>>

    ghost predicate Valid()
      reads this
    {
      AllWellFormed(generalInfo)
    }

    /** The table these fields stand for. */
    function View(): Table
      reads this
    {
      Table(Abs(generalInfo), beInfo, beListInfo, successorInfo, successorListInfo)
    }

    constructor (pid: int)
      ensures Valid() && View() == Empty && parentId == pid
    {
      parentId := pid;
      generalInfo := map[];
      beInfo, beListInfo, successorInfo, successorListInfo := map[], map[], map[], map[];
    }

    /** Rebuild the four caches of one group from its slices; looking the group up brings it into being. */
    method Reset(group: int)
      requires Valid()
      modifies this
      ensures Valid() && parentId == old(parentId)
      ensures generalInfo == TouchRaw(old(generalInfo), group)
      ensures View() == ResetMany(old(View()).(groups := Touch(old(View()).groups, group)), {group})
    {
      hide ResetMany;
      TouchRawAbs(generalInfo, group);
      generalInfo := TouchRaw(generalInfo, group);
      Recache(group);
    }

    method Recache(group: int)
      requires Valid() && group in generalInfo
      modifies this`beInfo, this`beListInfo, this`successorInfo, this`successorListInfo
      ensures View() == ResetMany(old(View()), {group})
    {
      AbsSlices(generalInfo, group);
      ResetOne(View(), group);
      var slices := generalInfo[group];
      var list := CollectBackEnds(slices);
      beListInfo := PutList(beListInfo, group, list);
      beInfo := beInfo[group := |list|];
      list := CollectSuccessors(slices);
      successorListInfo := PutList(successorListInfo, group, list);
      successorInfo := successorInfo[group := |list|];
    }

    // ----- filling a new group slice by slice -----

    /** Store one slice of a group. */
    method PutSlice(group: int, c: int, part: seq<Range>)
      modifies this`generalInfo
      ensures generalInfo == PutRawSlice(old(generalInfo), group, c, part)
    {
      generalInfo := generalInfo[group := RawSlicesOf(generalInfo, group)[c := part]];
    }

    /** For every slice of `src`, its part inside `total`, unless that is empty. */
    method FillWithin(src: RawSlices, total: Group, group: int) returns (ghost made: RawSlices, hasMember: bool)
      requires WellFormed(src) && total.Valid() && group !in generalInfo
      modifies this`generalInfo
      ensures WellFormed(made) && Sets(made) == Within(Sets(src), total.Set())
      ensures generalInfo == PutRaw(old(generalInfo), group, made) && hasMember == (made != map[])
    {
      hide *;
      var keys := Enumerate(src.Keys);
      ghost var gi, s := generalInfo, total.Set();
      ghost var val := c => Get(Sets(src), c) * s;
      ghost var want := c => val(c) != {};
      made, hasMember := map[], false;
      BuiltNothing(gi, group, want, val);
      DoneAll(src.Keys);
      for i := 0 to |keys|
        invariant total.Valid() && total.Set() == s
        invariant Built(made, Done(src.Keys, i), want, val)
        invariant generalInfo == PutRaw(gi, group, made) && hasMember == (made != map[])
      {
        DoneStep(src.Keys, i);
        SliceAt(src, keys[i]);
        var part := Intersect(src[keys[i]], total);
        BuiltStep(made, Done(src.Keys, i), want, val, keys[i], part);
        if part != [] {
          PutRawStep(gi, group, made, keys[i], part);
          PutSlice(group, keys[i], part);
          made, hasMember := made[keys[i] := part], true;
        }
      }
      BuiltWithin(made, src, s, want, val);
    }

    /** For every slice of `src`, its part outside `total`, unless that is empty. */
    method FillOutside(src: RawSlices, total: Group, group: int) returns (ghost made: RawSlices, hasMember: bool)
      requires WellFormed(src) && total.Valid() && group !in generalInfo
      modifies this`generalInfo
      ensures WellFormed(made) && Sets(made) == Outside(Sets(src), total.Set())
      ensures generalInfo == PutRaw(old(generalInfo), group, made) && hasMember == (made != map[])
    {
      hide *;
      var keys := Enumerate(src.Keys);
      ghost var gi, s := generalInfo, total.Set();
      ghost var val := c => Get(Sets(src), c) - s;
      ghost var want := c => val(c) != {};
      made, hasMember := map[], false;
      BuiltNothing(gi, group, want, val);
      DoneAll(src.Keys);
      for i := 0 to |keys|
        invariant total.Valid() && total.Set() == s
        invariant Built(made, Done(src.Keys, i), want, val)
        invariant generalInfo == PutRaw(gi, group, made) && hasMember == (made != map[])
      {
        DoneStep(src.Keys, i);
        SliceAt(src, keys[i]);
        var part := Subtract(src[keys[i]], total);
        BuiltStep(made, Done(src.Keys, i), want, val, keys[i], part);
        if part != [] {
          PutRawStep(gi, group, made, keys[i], part);
          PutSlice(group, keys[i], part);
          made, hasMember := made[keys[i] := part], true;
        }
      }
      BuiltOutside(made, src, s, want, val);
    }

    /** The slices the two groups share, successor by successor. */
    method FillIntersection(a: RawSlices, b: RawSlices, group: int) returns (ghost made: RawSlices, hasMember: bool)
      requires WellFormed(a) && WellFormed(b) && group !in generalInfo
      modifies this`generalInfo
      ensures WellFormed(made) && Sets(made) == Combine(Sets(a), Sets(b), SCI_INTERSECTION)
      ensures generalInfo == PutRaw(old(generalInfo), group, made) && hasMember == (made != map[])
    {
      hide *;
      var keys := Enumerate(a.Keys);
      ghost var gi := generalInfo;
      ghost var val := c => Get(Sets(a), c) * Get(Sets(b), c);
      ghost var want := c => c in b && val(c) != {};
      made, hasMember := map[], false;
      BuiltNothing(gi, group, want, val);
      DoneAll(a.Keys);
      for i := 0 to |keys|
        invariant Built(made, Done(a.Keys, i), want, val)
        invariant generalInfo == PutRaw(gi, group, made) && hasMember == (made != map[])
      {
        DoneStep(a.Keys, i);
        SliceAt(a, keys[i]);
        if keys[i] in b {
          SliceAt(b, keys[i]);
          var other := new Group.Of(b[keys[i]]);
          GroupSetOf(other);
          var part := Intersect(a[keys[i]], other);
          BuiltStep(made, Done(a.Keys, i), want, val, keys[i], part);
          if part != [] {
            PutRawStep(gi, group, made, keys[i], part);
            PutSlice(group, keys[i], part);
            made, hasMember := made[keys[i] := part], true;
          }
        } else {
          BuiltStep(made, Done(a.Keys, i), want, val, keys[i], []);
        }
      }
      BuiltIntersection(made, a, b, want, val);
    }

    /** The slices of the first group less those of the second, unless nothing is left. */
    method FillDifference(a: RawSlices, b: RawSlices, group: int) returns (ghost made: RawSlices, hasMember: bool)
      requires WellFormed(a) && WellFormed(b) && group !in generalInfo
      modifies this`generalInfo
      ensures WellFormed(made) && Sets(made) == Combine(Sets(a), Sets(b), SCI_DIFFERENCE)
      ensures generalInfo == PutRaw(old(generalInfo), group, made) && hasMember == (made != map[])
    {
      hide *;
      var keys := Enumerate(a.Keys);
      ghost var gi := generalInfo;
      ghost var val := c => Get(Sets(a), c) - Get(Sets(b), c);
      ghost var want := c => val(c) != {};
      made, hasMember := map[], false;
      BuiltNothing(gi, group, want, val);
      DoneAll(a.Keys);
      for i := 0 to |keys|
        invariant Built(made, Done(a.Keys, i), want, val)
        invariant generalInfo == PutRaw(gi, group, made) && hasMember == (made != map[])
      {
        DoneStep(a.Keys, i);
        SliceAt(a, keys[i]);
        var part := SubtractSlice(a[keys[i]], b, keys[i]);
        BuiltStep(made, Done(a.Keys, i), want, val, keys[i], part);
        if part != [] {
          PutRawStep(gi, group, made, keys[i], part);
          PutSlice(group, keys[i], part);
          made, hasMember := made[keys[i] := part], true;
        }
      }
      BuiltDifference(made, a, b, want, val);
    }

    /** The slices of either group, joined where both have one. */
    method FillUnion(a: RawSlices, b: RawSlices, group: int) returns (ghost made: RawSlices)
      requires WellFormed(a) && WellFormed(b) && group !in generalInfo
      modifies this`generalInfo
      ensures WellFormed(made) && Sets(made) == Combine(Sets(a), Sets(b), SCI_UNION)
      ensures generalInfo == PutRaw(old(generalInfo), group, made)
    {
      hide *;
      var keys := Enumerate(a.Keys);
      ghost var gi := generalInfo;
      ghost var val := c => Get(Sets(a), c) + Get(Sets(b), c);
      ghost var want := c => true;
      made := map[];
      BuiltNothing(gi, group, want, val);
      DoneAll(a.Keys);
      for i := 0 to |keys|
        invariant Built(made, Done(a.Keys, i), want, val)
        invariant generalInfo == PutRaw(gi, group, made)
      {
        DoneStep(a.Keys, i);
        SliceAt(a, keys[i]);
        var uni := new Group.Of(a[keys[i]]);
        GroupSetOf(uni);
        SetsMissing(b, keys[i]);
        if keys[i] in b {
          SliceAt(b, keys[i]);
          uni := Join(a[keys[i]], b[keys[i]]);
        }
        GroupSetOf(uni);
        BuiltStep(made, Done(a.Keys, i), want, val, keys[i], uni.rangeList);
        PutRawStep(gi, group, made, keys[i], uni.rangeList);
        PutSlice(group, keys[i], uni.rangeList);
        made := made[keys[i] := uni.rangeList];
      }
      made := FillUnionRest(a, b, group, gi, made, want, val);
      BuiltUnion(made, a, b, want, val);
    }

    /** The second loop of the union: the slices of `b` that `a` has no successor for. */
    method FillUnionRest(a: RawSlices, b: RawSlices, group: int, ghost gi: RawGroups, ghost start: RawSlices,
                         ghost want: int -> bool, ghost val: int -> set<int>) returns (ghost made: RawSlices)
      requires WellFormed(b) && group !in gi && generalInfo == PutRaw(gi, group, start)
      requires val == (c => Get(Sets(a), c) + Get(Sets(b), c)) && want == (c => true)
      requires Built(start, a.Keys, want, val)
      modifies this`generalInfo
      ensures Built(made, a.Keys + b.Keys, want, val) && generalInfo == PutRaw(gi, group, made)
    {
      hide *;
      var keys := Enumerate(b.Keys);
      made := start;
      DoneAll(b.Keys);
      assert a.Keys + Done(b.Keys, 0) == a.Keys;
      for i := 0 to |keys|
        invariant Built(made, a.Keys + Done(b.Keys, i), want, val)
        invariant generalInfo == PutRaw(gi, group, made)
      {
        DoneStep(b.Keys, i);
        SliceAt(b, keys[i]);
        SetsMissing(a, keys[i]);
        ghost var done := a.Keys + Done(b.Keys, i);
        assert a.Keys + Done(b.Keys, i + 1) == done + {keys[i]};
        if keys[i] !in a {
          var uni := new Group.Of(b[keys[i]]);
          BuiltStep(made, done, want, val, keys[i], uni.rangeList);
          PutRawStep(gi, group, made, keys[i], uni.rangeList);
          PutSlice(group, keys[i], uni.rangeList);
          made := made[keys[i] := uni.rangeList];
        } else {
          assert done + {keys[i]} == done;
        }
      }
    }

    /** The whole slice of every successor that `own` uses, and the listed part of the others. */
    method FillExtUnion(all: RawSlices, own: RawSlices, total: Group, group: int) returns (ghost made: RawSlices)
      requires WellFormed(all) && total.Valid() && group !in generalInfo
      modifies this`generalInfo
      ensures WellFormed(made) && Sets(made) == ExtUnion(Sets(all), Sets(own), total.Set())
      ensures generalInfo == PutRaw(old(generalInfo), group, made)
    {
      hide *;
      var keys := Enumerate(all.Keys);
      ghost var gi, s := generalInfo, total.Set();
      ghost var val := c => if c in own then Get(Sets(all), c) else Get(Sets(all), c) * s;
      ghost var want := c => c in own || val(c) != {};
      made := map[];
      BuiltNothing(gi, group, want, val);
      DoneAll(all.Keys);
      for i := 0 to |keys|
        invariant total.Valid() && total.Set() == s
        invariant Built(made, Done(all.Keys, i), want, val)
        invariant generalInfo == PutRaw(gi, group, made)
      {
        DoneStep(all.Keys, i);
        SliceAt(all, keys[i]);
        var intersect := Intersect(all[keys[i]], total);
        var uni := new Group.Of(intersect);
        if keys[i] in own {
          uni := new Group.Of(all[keys[i]]);
          if intersect != [] {
            uni := Join(all[keys[i]], intersect);
          }
        }
        GroupSetOf(uni);
        BuiltStep(made, Done(all.Keys, i), want, val, keys[i], uni.rangeList);
        if keys[i] in own || intersect != [] {
          PutRawStep(gi, group, made, keys[i], uni.rangeList);
          PutSlice(group, keys[i], uni.rangeList);
          made := made[keys[i] := uni.rangeList];
        }
      }
      BuiltExtUnion(made, all, own, s, want, val);
    }

    // ----- write operations -----

    /** A new group from a list of back ends. */
    method Create(list: seq<int>, group: int)
      requires Valid() && SCI_GROUP_ALL in generalInfo && group !in generalInfo
      modifies this
      ensures Valid() && parentId == old(parentId)
      ensures View() == Tables.Create(old(View()), Elements(list), group)
      ensures CreateEffect(old(View()).groups, Elements(list), group, View().groups)
    {
      hide CreateEffect, ResetMany, CreateGroups, Abs, Sets, Touch, PutRaw, TouchRaw, AllWellFormed, Elements, Within;
      var total := ListToGroup(list);
      ghost var gi := generalInfo;
      GroupAt(gi, SCI_GROUP_ALL);
      var made, _ := FillWithin(generalInfo[SCI_GROUP_ALL], total, group);
      CreatedAbs(gi, group, Elements(list), made);
      AbsKeys(gi);
      CreateTable(old(View()), Elements(list), group);
      Reset(group);
    }

    method Remove(group: int)
      requires Valid() && group in generalInfo
      modifies this
      ensures Valid() && parentId == old(parentId)
      ensures View() == Tables.Remove(old(View()), group)
      ensures RemoveEffect(old(View()).groups, group, View().groups)
    {
      generalInfo := generalInfo - {group};
      beInfo, successorInfo := beInfo - {group}, successorInfo - {group};
      beListInfo, successorListInfo := beListInfo - {group}, successorListInfo - {group};
      assert Abs(generalInfo) == Abs(old(generalInfo)) - {group};
      RemoveTable(old(View()), group);
    }

    /** Union, intersection or difference of two groups, successor by successor. */
    method Operate(group1: int, group2: int, op: SetOp, newgroup: int) returns (rc: int)
      requires Valid() && newgroup !in generalInfo && newgroup != group1 && newgroup != group2
      requires op != SCI_UNION ==> group1 in generalInfo
      modifies this
      ensures Valid() && parentId == old(parentId)
      ensures View() == Tables.Operate(old(View()), group1, group2, op, newgroup)
      ensures OperateEffect(old(View()).groups, group1, group2, op, newgroup, View().groups)
      ensures rc == if newgroup in View().groups then SCI_SUCCESS else SCI_ERR_GROUP_EMPTY
    {
      hide OperateEffect, ResetMany, OperateGroups, Operated, Combine, Made, Abs, Sets, Touch, PutRaw, TouchRaw,
           LookedUpRaw, AllWellFormed;
      ghost var gi, t := generalInfo, View();
      LookedUpKeeps(gi, group1, group2, op, group1);
      LookedUpKeeps(gi, group1, group2, op, group2);
      LookedUpKeeps(gi, group1, group2, op, newgroup);
      generalInfo := LookedUpRaw(generalInfo, group1, group2, op);
      var a, b := RawSlicesOf(generalInfo, group1), RawSlicesOf(generalInfo, group2);
      GroupAt(gi, group1);
      GroupAt(gi, group2);
      ghost var made: RawSlices := map[];
      var hasMember := true;
      match op {
        case SCI_UNION => made := FillUnion(a, b, newgroup);
        case SCI_INTERSECTION => made, hasMember := FillIntersection(a, b, newgroup);
        case SCI_DIFFERENCE => made, hasMember := FillDifference(a, b, newgroup);
      }
      OperatedAbs(gi, group1, group2, op, newgroup, made);
      AbsKeys(gi);
      OperateTable(t, group1, group2, op, newgroup);
      if hasMember {
        Reset(newgroup);
        rc := SCI_SUCCESS;
      } else {
        ResetNone(View());
        rc := SCI_ERR_GROUP_EMPTY;
      }
    }

    /** Union, intersection or difference of a group and a list of back ends, successor by successor. */
    method OperateExt(group: int, list: seq<int>, op: SetOp, newgroup: int) returns (rc: int)
      requires Valid() && newgroup !in generalInfo && newgroup != group
      requires if op == SCI_UNION then SCI_GROUP_ALL in generalInfo else group in generalInfo
      modifies this
      ensures Valid() && parentId == old(parentId)
      ensures View() == Tables.OperateExt(old(View()), group, Elements(list), op, newgroup)
      ensures OperateExtEffect(old(View()).groups, group, Elements(list), op, newgroup, View().groups)
      ensures rc == if newgroup in View().groups then SCI_SUCCESS else SCI_ERR_GROUP_EMPTY
    {
      hide OperateExtEffect, ResetMany, OperateExtGroups, OperatedExt, Made, Touch, PutRaw, Elements, CombineExt,
           LookedUpExtRaw, TouchRaw, Abs, Sets, AllWellFormed, WellFormed, Canonical, Members;
      ghost var gi := generalInfo;
      var made, hasMember := FillExt(group, list, op, newgroup);
      OperatedExtAbs(gi, group, Elements(list), op, newgroup, made);
      AbsKeys(gi);
      OperateExtTable(old(View()), group, Elements(list), op, newgroup);
      if hasMember {
        Reset(newgroup);
        rc := SCI_SUCCESS;
      } else {
        ResetNone(View());
        rc := SCI_ERR_GROUP_EMPTY;
      }
    }

    /** The three loops of `operateExt`: the slices of the new group, before any cache is touched. */
    method FillExt(group: int, list: seq<int>, op: SetOp, newgroup: int)
      returns (ghost made: RawSlices, hasMember: bool)
      requires Valid() && newgroup !in generalInfo && newgroup != group
      modifies this`generalInfo
      ensures WellFormed(made) && hasMember == (op == SCI_UNION || made != map[])
      ensures Sets(made) == CombineExt(Sets(RawSlicesOf(old(generalInfo), SCI_GROUP_ALL)),
                                       Sets(RawSlicesOf(old(generalInfo), group)), Elements(list), op)
      ensures generalInfo == PutRaw(LookedUpExtRaw(old(generalInfo), group, op), newgroup, made)
    {
      hide Abs, Sets, PutRaw, TouchRaw, LookedUpExtRaw, AllWellFormed, WellFormed, Elements, Within, Outside, ExtUnion,
           RawSlicesOf, Members, Canonical;
      var total := ListToGroup(list);
      ghost var gi := generalInfo;
      LookedUpExtKeeps(gi, group, op, group);
      LookedUpExtKeeps(gi, group, op, SCI_GROUP_ALL);
      LookedUpExtKeeps(gi, group, op, newgroup);
      generalInfo := LookedUpExtRaw(generalInfo, group, op);
      var all, own := RawSlicesOf(generalInfo, SCI_GROUP_ALL), RawSlicesOf(generalInfo, group);
      GroupAt(gi, SCI_GROUP_ALL);
      GroupAt(gi, group);
      hasMember := true;
      match op {
        case SCI_UNION => made := FillExtUnion(all, own, total, newgroup);
        case SCI_INTERSECTION => made, hasMember := FillWithin(own, total, newgroup);
        case SCI_DIFFERENCE => made, hasMember := FillOutside(own, total, newgroup);
      }
    }

    /** File the back ends `start..end` under a successor, appending to the caches of ALL. */
    method InitSubGroup(successor: int, start: int, end: int)
      requires Valid() && start <= end
      modifies this
      ensures Valid() && parentId == old(parentId)
      ensures View() == Tables.InitSubGroup(old(View()), successor, start, end)
      ensures InitSubGroupEffect(old(View()).groups, successor, start, end, View().groups)
    {
      hide InitSubGroupEffect, Abs, AllWellFormed, ListAt, NumAt, Span, Tables.PutSlice, Tables.InitSubGroup;
      ghost var t := View();
      InitSubGroupDoes(t, successor, start, end);
      FileRange(successor, start, end);
      var ids := IdList(start, end);
      AppendBackEnds(ids);
      var succs := ids;
      if successor != VALIDBACKENDIDS {
        succs := [successor];
      }
      AppendSuccessors(succs);
      Appended(t, successor, start, end, succs);
    }

    method FileRange(successor: int, start: int, end: int)
      requires AllWellFormed(generalInfo) && start <= end
      modifies this`generalInfo
      ensures AllWellFormed(generalInfo)
      ensures Abs(generalInfo)
              == Tables.PutSlice(Abs(old(generalInfo)), SCI_GROUP_ALL, successor, Range(start, end + 1).Ids())
    {
      hide Abs, AllWellFormed, Members, Canonical, PutRawSlice, Tables.PutSlice;
      var slice := RangeGroup(start, end);
      PutSliceAbs(generalInfo, SCI_GROUP_ALL, successor, slice);
      PutSlice(SCI_GROUP_ALL, successor, slice);
    }

    method AppendBackEnds(ids: seq<int>)
      modifies this`beInfo, this`beListInfo
      ensures beListInfo == old(beListInfo)[SCI_GROUP_ALL := ListAt(old(beListInfo), SCI_GROUP_ALL) + ids]
      ensures beInfo == old(beInfo)[SCI_GROUP_ALL := NumAt(old(beInfo), SCI_GROUP_ALL) + |ids|]
    {
      beListInfo := beListInfo[SCI_GROUP_ALL := ListAt(beListInfo, SCI_GROUP_ALL) + ids];
      beInfo := beInfo[SCI_GROUP_ALL := NumAt(beInfo, SCI_GROUP_ALL) + |ids|];
    }

    method AppendSuccessors(ids: seq<int>)
      modifies this`successorInfo, this`successorListInfo
      ensures successorListInfo
              == old(successorListInfo)[SCI_GROUP_ALL := ListAt(old(successorListInfo), SCI_GROUP_ALL) + ids]
      ensures successorInfo == old(successorInfo)[SCI_GROUP_ALL := NumAt(old(successorInfo), SCI_GROUP_ALL) + |ids|]
    {
      successorListInfo := successorListInfo[SCI_GROUP_ALL := ListAt(successorListInfo, SCI_GROUP_ALL) + ids];
      successorInfo := successorInfo[SCI_GROUP_ALL := NumAt(successorInfo, SCI_GROUP_ALL) + |ids|];
    }

    method AddBE(group: int, successor: int, be: int)
      requires Valid()
      modifies this
      ensures Valid() && parentId == old(parentId)
      ensures View() == Tables.AddBE(old(View()), group, successor, be)
      ensures FileEffect(old(View()).groups, group, successor, Slice(old(View()).groups, group, successor) + {be},
                         View().groups)
    {
      hide FileEffect, ResetMany, Abs, Sets, Touch, AllWellFormed;
      var slices := RawSlicesOf(generalInfo, group);
      GroupAt(generalInfo, group);
      var grp := new Group();
      SetsMissing(slices, successor);
      if successor in slices {
        SliceAt(slices, successor);
        grp := new Group.Of(slices[successor]);
      }
      grp.AddId(be);
      PutSliceAbs(generalInfo, group, successor, grp.rangeList);
      PutSlice(group, successor, grp.rangeList);
      Touched(View().groups, group);
      AddBEDoes(old(View()), group, successor, be);
      Reset(group);
    }

    /** Rebuild the caches of every group, in key order. */
    method ResetAll()
      requires Valid()
      modifies this`beInfo, this`beListInfo, this`successorInfo, this`successorListInfo
      ensures View() == ResetMany(old(View()), old(View()).groups.Keys)
    {
      hide ResetMany, Abs, AllWellFormed, Done;
      var keys := Enumerate(generalInfo.Keys);
      ghost var t := View();
      AbsKeys(generalInfo);
      DoneAll(generalInfo.Keys);
      ResetNone(t);
      for i := 0 to |keys|
        invariant View() == ResetMany(t, Done(generalInfo.Keys, i))
      {
        DoneStep(generalInfo.Keys, i);
        ResetGroups(t, Done(generalInfo.Keys, i));
        ResetCompose(t, t.groups, t.groups, Done(generalInfo.Keys, i), keys[i]);
        Recache(keys[i]);
      }
    }

    /** Take a back end out of every group; successors and groups left without members disappear. */
    method RemoveBE(be: int)
      requires Valid()
      modifies this
      ensures Valid() && parentId == old(parentId)
      ensures View() == Tables.RemoveBE(old(View()), be)
      ensures RemoveBEEffect(old(View()).groups, be, View().groups)
    {
      hide RemoveBEEffect, ResetMany, Abs, Sets, AllWellFormed, Stripped, StripTo, Vanishing, RemoveBEGroups, Elements;
      ghost var gi, t := generalInfo, View();
      var junk := StripAllGroups(be);
      AbsMinus(generalInfo, Elements(junk));
      EraseJunk(junk);
      StripAll(t.groups, be);
      RemoveBETable(t, be);
      ResetAll();
    }

    /** The first loop of `RemoveBE`: every group loses the back end; the groups left without slices are returned. */
    method StripAllGroups(be: int) returns (junk: seq<int>)
      requires Valid()
      modifies this`generalInfo
      ensures Valid() && Abs(generalInfo) == StripTo(Abs(old(generalInfo)), be, Abs(old(generalInfo)).Keys)
      ensures Elements(junk) == Vanishing(Abs(old(generalInfo)), be)
    {
      hide Abs, Sets, AllWellFormed, Stripped, StripTo, Elements, Done;
      ghost var gi, groups := generalInfo, Abs(generalInfo);
      var keys := Enumerate(generalInfo.Keys);
      junk := [];
      AbsKeys(gi);
      DoneAll(gi.Keys);
      StripAll(groups, be);
      NoElements();
      for i := 0 to |keys|
        invariant Valid() && generalInfo.Keys == gi.Keys
        invariant Abs(generalInfo) == StripTo(groups, be, Done(gi.Keys, i))
        invariant Elements(junk) == VanishingAmong(groups, be, Done(gi.Keys, i))
      {
        var g := keys[i];
        DoneStep(gi.Keys, i);
        ghost var done := Done(gi.Keys, i);
        StripAt(groups, be, done, g);
        GroupAt(generalInfo, g);
        StripStep(groups, be, done, g);
        VanishingStep(groups, be, done, g);
        var left := StripSlices(g, generalInfo[g], be);
        PutGroup(generalInfo, g, left);
        AbsPut(generalInfo, g, left);
        generalInfo := generalInfo[g := left];
        SetsEmpty(left);
        if left == map[] {
          SnocElements(junk, g);
          junk := junk + [g];
        }
      }
      VanishingAll(groups, be);
    }

    /** The second loop of `RemoveBE`: erase the emptied groups and their caches. */
    method EraseJunk(junk: seq<int>)
      modifies this
      ensures generalInfo == old(generalInfo) - Elements(junk) && parentId == old(parentId)
      ensures beInfo == old(beInfo) - Elements(junk) && beListInfo == old(beListInfo) - Elements(junk)
      ensures successorInfo == old(successorInfo) - Elements(junk)
      ensures successorListInfo == old(successorListInfo) - Elements(junk)
    {
      hide Elements;
      NoElements();
      for i := 0 to |junk|
        invariant parentId == old(parentId)
        invariant generalInfo == old(generalInfo) - Elements(junk[..i])
        invariant beInfo == old(beInfo) - Elements(junk[..i])
        invariant beListInfo == old(beListInfo) - Elements(junk[..i])
        invariant successorInfo == old(successorInfo) - Elements(junk[..i])
        invariant successorListInfo == old(successorListInfo) - Elements(junk[..i])
      {
        SnocElements(junk[..i], junk[i]);
        assert junk[..i + 1] == junk[..i] + [junk[i]];
        MinusOne(old(generalInfo), Elements(junk[..i]), junk[i]);
        MinusOne(old(beInfo), Elements(junk[..i]), junk[i]);
        MinusOne(old(beListInfo), Elements(junk[..i]), junk[i]);
        MinusOne(old(successorInfo), Elements(junk[..i]), junk[i]);
        MinusOne(old(successorListInfo), Elements(junk[..i]), junk[i]);
        generalInfo := generalInfo - {junk[i]};
        beInfo, successorInfo := beInfo - {junk[i]}, successorInfo - {junk[i]};
        beListInfo, successorListInfo := beListInfo - {junk[i]}, successorListInfo - {junk[i]};
      }
      assert junk[..|junk|] == junk;
    }

    /** A dropped back end leaves the directly attached slices; a dropped agent takes its slices with it. */
    method DropSuccessor(successor: int)
      requires Valid()
      modifies this
      ensures Valid() && parentId == old(parentId)
      ensures View() == Tables.DropSuccessor(old(View()), successor)
      ensures DropEffect(old(View()).groups, successor, View().groups)
    {
      hide DropEffect, ResetMany, Abs, Sets, AllWellFormed, Dropped, DropTo, DropGroups, UsersOf, Done;
      ghost var gi, t := generalInfo, View();
      var keys := Enumerate(generalInfo.Keys);
      AbsKeys(gi);
      DoneAll(gi.Keys);
      DropAll(t.groups, successor);
      DropTable(t, successor);
      ResetNone(t);
      UsersAll(t.groups, KeyOf(successor));
      for i := 0 to |keys|
        invariant Valid() && parentId == old(parentId) && generalInfo.Keys == gi.Keys
        invariant View() == ResetMany(t.(groups := DropTo(t.groups, successor, Done(gi.Keys, i))),
                                      UsersAmong(t.groups, KeyOf(successor), Done(gi.Keys, i)))
      {
        DoneStep(gi.Keys, i);
        DropFrom(keys[i], successor, t, Done(gi.Keys, i));
      }
    }

    /** One round of `DropSuccessor`. */
    method DropFrom(g: int, successor: int, ghost t: Table, ghost done: set<int>)
      requires Valid() && g in generalInfo && g in t.groups && g !in done
      requires View() == ResetMany(t.(groups := DropTo(t.groups, successor, done)),
                                   UsersAmong(t.groups, KeyOf(successor), done))
      modifies this
      ensures Valid() && parentId == old(parentId) && generalInfo.Keys == old(generalInfo.Keys)
      ensures View() == ResetMany(t.(groups := DropTo(t.groups, successor, done + {g})),
                                  UsersAmong(t.groups, KeyOf(successor), done + {g}))
    {
      hide ResetMany, Abs, Sets, AllWellFormed, Dropped, DropTo, UsersAmong;
      ghost var before, after := DropTo(t.groups, successor, done), DropTo(t.groups, successor, done + {g});
      ghost var hit := UsersAmong(t.groups, KeyOf(successor), done);
      ResetGroups(t.(groups := before), hit);
      DropStep(t.groups, successor, done, g);
      UsersStep(t.groups, KeyOf(successor), done, g);
      GroupAt(generalInfo, g);
      var key := if successor >= 0 then VALIDBACKENDIDS else successor;
      SetsKeys(generalInfo[g]);
      if key in generalInfo[g] {
        var left := DropSlice(generalInfo[g], successor);
        PutGroup(generalInfo, g, left);
        AbsPut(generalInfo, g, left);
        generalInfo := generalInfo[g := left];
        ResetCompose(t, before, after, hit, g);
        Recache(g);
      } else {
        DropSame(t.groups, successor, done, g);
      }
    }

    /** Take over what a successor reports about itself, group by group. */
    method Merge(successor: int, dgroup: DistributedGroup, overwrite: bool)
      requires Valid() && dgroup.Valid() && dgroup != this
      modifies this
      ensures Valid() && parentId == old(parentId)
      ensures View() == Tables.Merge(old(View()), successor, Abs(dgroup.generalInfo), overwrite)
      ensures MergeEffect(old(View()).groups, successor, Abs(dgroup.generalInfo), overwrite, View().groups)
    {
      hide MergeEffect, Abs, Sets, AllWellFormed, Tables.Merge, Only, Done;
      ghost var t, incoming := View(), Abs(dgroup.generalInfo);
      var keys := Enumerate(dgroup.generalInfo.Keys);
      AbsKeys(dgroup.generalInfo);
      DoneAll(incoming.Keys);
      MergeStart(t, successor, incoming, overwrite);
      MergeTable(t, successor, incoming, overwrite);
      for i := 0 to |keys|
        invariant Valid() && parentId == old(parentId)
        invariant View() == Tables.Merge(t, successor, Only(incoming, Done(incoming.Keys, i)), overwrite)
      {
        DoneStep(incoming.Keys, i);
        GroupAt(dgroup.generalInfo, keys[i]);
        MergeGroup(keys[i], successor, dgroup.generalInfo[keys[i]], overwrite, t, incoming, Done(incoming.Keys, i));
      }
    }

    /** One round of `Merge`. */
    method MergeGroup(g: int, successor: int, raw: RawSlices, overwrite: bool,
                      ghost t: Table, ghost incoming: GroupMap, ghost done: set<int>)
      requires Valid() && WellFormed(raw) && g in incoming && incoming[g] == Sets(raw) && g !in done
      requires View() == Tables.Merge(t, successor, Only(incoming, done), overwrite)
      modifies this
      ensures Valid() && parentId == old(parentId)
      ensures View() == Tables.Merge(t, successor, Only(incoming, done + {g}), overwrite)
    {
      hide Abs, Sets, AllWellFormed, ResetMany, Tables.Merge, Only, MergeGroups, MergeInto, Gain;
      MergeStep(t, successor, incoming, overwrite, done, g);
      MergedSoFar(t, successor, incoming, overwrite, done, g);
      GroupAt(generalInfo, g);
      var left := map[];
      if g !in generalInfo {
        if overwrite {
          CanonicalNothing();
          var own := GainSlice([], successor, raw);
          assert Members(own) == Gain(successor, Sets(raw));
          left := map[KeyOf(successor) := own];
          OneSlice(KeyOf(successor), own);
        } else {
          return;
        }
      } else {
        left := MergeSlices(generalInfo[g], successor, raw);
      }
      PutGroup(generalInfo, g, left);
      AbsPut(generalInfo, g, left);
      generalInfo := generalInfo[g := left];
      Recache(g);
    }

    // ----- read operations -----

    method IsGroupExist(group: int) returns (found: bool)
      ensures found <==> group in View().groups
    {
      found := group in generalInfo;
    }

    /** In every table a run can produce, the number of members of the group. */
    method NumOfBE(group: int) returns (num: int)
      ensures num == BeNumAt(View(), group)
      ensures Invariant(View()) ==> num == |GroupSet(View().groups, group)|
    {
      if Invariant(View()) { Runs.CachesExact(View(), group); }
      num := if group in beInfo then beInfo[group] else 0;
    }

    /** In every table a run can produce, the number of agents in use and of attached members together. */
    method NumOfSuccessor(group: int) returns (num: int)
      ensures num == SuccNumAt(View(), group)
      ensures Invariant(View()) ==>
                num == |SlicesOf(View().groups, group).Keys - {VALIDBACKENDIDS}|
                  + |Slice(View().groups, group, VALIDBACKENDIDS)|
    {
      if Invariant(View()) { SuccessorCount(View(), group); }
      num := if group in successorInfo then successorInfo[group] else 0;
    }

    /** The members of the group, each once, as many as `NumOfBE` says. */
    method RetrieveBEList(group: int) returns (ids: seq<int>)
      ensures ids == BeListAt(View(), group)
      ensures Invariant(View()) ==>
                && multiset(ids) == multiset(GroupSet(View().groups, group))
                && |ids| == BeNumAt(View(), group)
    {
      if Invariant(View()) { Runs.CachesExact(View(), group); }
      ids := CopyList(if group in beListInfo then beListInfo[group] else []);
      assert |multiset(ids)| == |ids|;
    }

    /** The successors a message to the group is sent to, as many as `NumOfSuccessor` says. */
    method RetrieveSuccessorList(group: int) returns (ids: seq<int>)
      ensures ids == SuccListAt(View(), group)
      ensures Invariant(View()) ==>
                && multiset(ids) == multiset(SlicesOf(View().groups, group).Keys - {VALIDBACKENDIDS})
                                    + multiset(Slice(View().groups, group, VALIDBACKENDIDS))
                && |ids| == SuccNumAt(View(), group)
    {
      if Invariant(View()) { Runs.CachesExact(View(), group); }
      ids := CopyList(if group in successorListInfo then successorListInfo[group] else []);
    }

    /** The successor that leads to a back end: the first one, in key order, whose slice of ALL holds it. */
    method QuerySuccessorId(be: int) returns (id: int)
      requires Valid()
      ensures be in GroupSet(View().groups, SCI_GROUP_ALL) ==>
                && be in Slice(View().groups, SCI_GROUP_ALL, id)
                && forall c :: c < id ==> be !in Slice(View().groups, SCI_GROUP_ALL, c)
      ensures be !in GroupSet(View().groups, SCI_GROUP_ALL) ==> id == INVLIDSUCCESSORID
      ensures id == Query(SlicesOf(View().groups, SCI_GROUP_ALL), be)
    {
      hide Abs, Sets, AllWellFormed, Union, Query;
      GroupAt(generalInfo, SCI_GROUP_ALL);
      var found := false;
      found, id := FirstHolder(RawSlicesOf(generalInfo, SCI_GROUP_ALL), be);
      if !found {
        id := INVLIDSUCCESSORID;
      }
      QueryIs(SlicesOf(View().groups, SCI_GROUP_ALL), be, id);
    }

    method IsSuccessorExist(successor: int) returns (found: bool)
      requires Valid()
      ensures found <==> || successor in SlicesOf(View().groups, SCI_GROUP_ALL)
                         || successor in Slice(View().groups, SCI_GROUP_ALL, VALIDBACKENDIDS)
    {
      var slices := RawSlicesOf(generalInfo, SCI_GROUP_ALL);
      AbsSlices(generalInfo, SCI_GROUP_ALL);
      if successor in slices {
        return true;
      }
      if VALIDBACKENDIDS in slices {
        var grp := new Group.Of(slices[VALIDBACKENDIDS]);
        found := grp.HasMember(successor);
      } else {
        found := false;
      }
    }

    method RetrieveBEListOfSuccessor(successor: int) returns (ids: seq<int>)
      requires Valid()
      ensures ids == Enumerate(Slice(View().groups, SCI_GROUP_ALL, successor))
    {
      var slices := RawSlicesOf(generalInfo, SCI_GROUP_ALL);
      AbsSlices(generalInfo, SCI_GROUP_ALL);
      if successor in slices {
        ids := SliceIds(slices, successor);
      } else {
        ids := [];
      }
    }
  }

  // ----- one group at a time -----

  lemma SuccessorCount(t: Table, g: int)
    requires Invariant(t)
    ensures SuccNumAt(t, g) == |SlicesOf(t.groups, g).Keys - {VALIDBACKENDIDS}| + |Slice(t.groups, g, VALIDBACKENDIDS)|
  {
    hide Invariant;
    Runs.CachesExact(t, g);
    var agents, attached := SlicesOf(t.groups, g).Keys - {VALIDBACKENDIDS}, Slice(t.groups, g, VALIDBACKENDIDS);
    assert |SuccListAt(t, g)| == |multiset(SuccListAt(t, g))| == |multiset(agents)| + |multiset(attached)|;
  }

  method CopyList(list: seq<int>) returns (copy: seq<int>)
    ensures copy == list
  {
    copy := [];
    for i := 0 to |list|
      invariant copy == list[..i]
    {
      copy := copy + [list[i]];
    }
  }

  /** The first holder in key order, or the invalid id when there is none, is what the look-up gives. */
  lemma QueryIs(sl: Slices, x: int, id: int)
    requires x in Union(sl) ==> x in Get(sl, id) && forall c :: c < id ==> x !in Get(sl, c)
    requires x !in Union(sl) ==> id == INVLIDSUCCESSORID
    ensures Query(sl, x) == id
  {
    UnionIff(sl, x);
    var holders := set c | c in sl && x in sl[c];
    assert forall c :: c in holders <==> x in Get(sl, c);
    if x in Union(sl) {
      assert id in holders;
      assert Least(holders) == id;
    } else if holders != {} {
      NonEmptyHasMember(holders);
      assert false;
    }
  }

  /** Delete a back end from every slice of a group, then erase the slices this has emptied. */
  method StripSlices(g: int, slices: RawSlices, be: int) returns (left: RawSlices)
    requires WellFormed(slices)
    ensures WellFormed(left) && Sets(left) == Stripped(g, Sets(slices), be)
  {
    hide Lightened, Elements, Erasable, EmptyAmong, Done, Sets, Stripped;
    var full, junk := LightenSlices(slices, be);
    left := full;
    NoErasable(g, full);
    for j := 0 to |junk|
      invariant left == full - Erasable(g, junk[..j])
    {
      ErasableStep(g, junk, j);
      if g == SCI_GROUP_ALL {
        if junk[j] >= 0 {
          left := left - {junk[j]};
        }
      } else {
        left := left - {junk[j]};
      }
    }
    assert junk[..|junk|] == junk;
    StrippedSets(g, full, slices, be, junk);
  }

  method LightenSlices(slices: RawSlices, be: int) returns (full: RawSlices, junk: seq<int>)
    requires WellFormed(slices)
    ensures Lightened(full, slices, slices.Keys, be)
    ensures Elements(junk) == EmptyAmong(full, slices.Keys)
  {
    hide *;
    var keys := Enumerate(slices.Keys);
    full, junk := slices, [];
    DoneAll(slices.Keys);
    LightenedStart(slices, be);
    for i := 0 to |keys|
      invariant Lightened(full, slices, Done(slices.Keys, i), be)
      invariant Elements(junk) == EmptyAmong(full, Done(slices.Keys, i))
    {
      DoneStep(slices.Keys, i);
      SliceAt(slices, keys[i]);
      var grp := new Group.Of(slices[keys[i]]);
      GroupSetOf(grp);
      grp.DeleteId(be);
      GroupSetOf(grp);
      var size := grp.Size();
      LightenedStep(full, slices, Done(slices.Keys, i), be, keys[i], grp.rangeList);
      LightenedKeys(full, slices, Done(slices.Keys, i), be);
      EmptyAmongStep(full, Done(slices.Keys, i), keys[i], grp.rangeList);
      full := full[keys[i] := grp.rangeList];
      if size == 0 {
        SnocElements(junk, keys[i]);
        junk := junk + [keys[i]];
      }
    }
  }

  /** Search the slices in key order for the one that holds a back end. */
  method FirstHolder(slices: RawSlices, be: int) returns (found: bool, id: int)
    requires WellFormed(slices)
    ensures found <==> be in Union(Sets(slices))
    ensures found ==> be in Get(Sets(slices), id) && forall c :: c < id ==> be !in Get(Sets(slices), c)
  {
    hide Members, Canonical, Sets, Union;
    ghost var sl := Sets(slices);
    SetsKeys(slices);
    UnionIff(sl, be);
    var keys := Enumerate(slices.Keys);
    EnumerateAscends(slices.Keys);
    for i := 0 to |keys|
      invariant forall k :: 0 <= k < i ==> be !in Get(sl, keys[k])
    {
      EnumerateMember(slices.Keys, i);
      SliceAt(slices, keys[i]);
      var grp := new Group.Of(slices[keys[i]]);
      var here := grp.HasMember(be);
      if here {
        SmallerKeys(slices.Keys, i);
        return true, keys[i];
      }
    }
    assert forall c :: c in Elements(keys) ==> be !in Get(sl, c);
    return false, 0;
  }

  lemma SmallerKeys(s: set<int>, i: nat)
    requires i < |Enumerate(s)|
    ensures forall c :: c in s && c < Enumerate(s)[i] ==> exists k :: 0 <= k < i && Enumerate(s)[k] == c
  {
    EnumerateAscends(s);
    var q := Enumerate(s);
    forall c | c in s && c < q[i]
      ensures exists k :: 0 <= k < i && q[k] == c
    {
      assert c in Elements(q);
      var k :| 0 <= k < |q| && q[k] == c;
    }
  }

  method DropSlice(slices: RawSlices, successor: int) returns (left: RawSlices)
    requires WellFormed(slices) && KeyOf(successor) in slices
    ensures WellFormed(left) && Sets(left) == Dropped(Sets(slices), successor)
  {
    if successor >= 0 {
      var grp := new Group.Of(slices[VALIDBACKENDIDS]);
      grp.DeleteId(successor);
      left := slices[VALIDBACKENDIDS := grp.rangeList];
    } else {
      left := slices - {successor};
    }
  }

  /** A slice with the merged back end, or with every incoming slice, added. */
  method GainSlice(start: seq<Range>, successor: int, raw: RawSlices) returns (own: seq<Range>)
    requires Canonical(start) && WellFormed(raw)
    ensures Canonical(own) && Members(own) == Members(start) + Gain(successor, Sets(raw))
  {
    hide Sets, UnionAmong, Canonical, Members, WellFormed, Done;
    var grp := new Group.Of(start);
    if successor >= 0 {
      grp.AddId(successor);
    } else {
      var keys := Enumerate(raw.Keys);
      SetsKeys(raw);
      DoneAll(raw.Keys);
      UnionAll(Sets(raw));
      for i := 0 to |keys|
        invariant fresh(grp) && grp.Valid()
        invariant grp.Set() == Members(start) + UnionAmong(Sets(raw), Done(raw.Keys, i))
      {
        DoneStep(raw.Keys, i);
        SliceAt(raw, keys[i]);
        UnionStep(Sets(raw), Done(raw.Keys, i), keys[i]);
        var more := new Group.Of(raw[keys[i]]);
        grp.AddGroup(more);
      }
    }
    own := grp.rangeList;
  }

  /** The merged successor's slice gains; every other slice loses what is now filed there. */
  method MergeSlices(slices: RawSlices, successor: int, raw: RawSlices) returns (left: RawSlices)
    requires WellFormed(slices) && WellFormed(raw)
    ensures WellFormed(left) && Sets(left) == MergeInto(Sets(slices), successor, Sets(raw))
  {
    hide Sets, Members, Canonical, Gain, MergeInto, Reduced;
    var key := KeyOf(successor);
    SetsMissing(slices, key);
    CanonicalNothing();
    var own := [];
    if key in slices {
      SliceAt(slices, key);
      own := slices[key];
    }
    own := GainSlice(own, successor, raw);
    var base := slices[key := own];
    var taken := new Group.Of(own);
    if successor >= 0 {
      taken := new Group();
      taken.AddId(successor);
    }
    GroupSetOf(taken);
    left := ReduceOthers(base, key, taken);
    ReducedIsMerge(left, slices, successor, Sets(raw), own, taken.Set());
  }

  /** The last loop of `Merge`: delete a group from the slices of all other successors. */
  method ReduceOthers(base: RawSlices, key: int, taken: Group) returns (left: RawSlices)
    requires WellFormed(base) && taken.Valid()
    ensures Reduced(left, base, base.Keys, key, taken.Set())
  {
    hide *;
    var keys := Enumerate(base.Keys);
    left := base;
    DoneAll(base.Keys);
    ReducedStart(base, key, taken.Set());
    for i := 0 to |keys|
      invariant Reduced(left, base, Done(base.Keys, i), key, taken.Set())
    {
      DoneStep(base.Keys, i);
      SliceAt(base, keys[i]);
      if keys[i] != key {
        var part := Subtract(base[keys[i]], taken);
        ReducedStep(left, base, Done(base.Keys, i), key, taken.Set(), keys[i], part);
        left := left[keys[i] := part];
      } else {
        ReducedStep(left, base, Done(base.Keys, i), key, taken.Set(), keys[i], []);
      }
    }
  }

  lemma CanonicalNothing()
    ensures Canonical([]) && Members([]) == {}
  {
  }

  lemma OneSlice(c: int, r: seq<Range>)
    ensures Sets(map[c := r]) == map[c := Members(r)]
    ensures Canonical(r) ==> WellFormed(map[c := r])
  {
  }

  lemma MergedSoFar(t: Table, succ: int, incoming: GroupMap, overwrite: bool, done: set<int>, g: int)
    requires g in incoming && g !in done
    ensures var was := Merge(t, succ, Only(incoming, done), overwrite).groups;
            (g in was <==> g in t.groups) && SlicesOf(was, g) == SlicesOf(t.groups, g)
  {
    hide ResetMany, MergeGroups;
    MergeGroupsStep(t.groups, succ, incoming, overwrite, done, g);
    var part := Only(incoming, done);
    var gs := MergeGroups(t.groups, succ, part, overwrite);
    ResetGroups(t.(groups := gs), gs.Keys * part.Keys);
  }

  lemma NoElements()
    ensures Elements([]) == {}
  {
  }

  lemma MinusOne<T>(m: map<int, T>, gone: set<int>, k: int)
    ensures m - gone - {k} == m - (gone + {k})
  {
  }

  lemma SnocElements(q: seq<int>, x: int)
    ensures Elements(q + [x]) == Elements(q) + {x}
  {
  }

  lemma NoErasable(g: int, m: RawSlices)
    ensures Erasable(g, []) == {} && m - {} == m
  {
  }

  lemma ErasableStep(g: int, junk: seq<int>, j: nat)
    requires j < |junk|
    ensures Erasable(g, junk[..j + 1])
            == Erasable(g, junk[..j]) + if g != SCI_GROUP_ALL || junk[j] >= 0 then {junk[j]} else {}
  {
    assert junk[..j + 1] == junk[..j] + [junk[j]];
  }

  lemma LightenedStart(slices: RawSlices, be: int)
    requires WellFormed(slices)
    ensures Lightened(slices, slices, {}, be) && EmptyAmong(slices, {}) == {} == Elements([])
  {
  }

  lemma LightenedKeys(left: RawSlices, slices: RawSlices, done: set<int>, be: int)
    requires Lightened(left, slices, done, be)
    ensures left.Keys == slices.Keys
  {
  }

  lemma SetsKeys(m: RawSlices)
    ensures Sets(m).Keys == m.Keys
  {
  }

  lemma AbsKeys(gi: RawGroups)
    ensures Abs(gi).Keys == gi.Keys
  {
  }

  lemma AbsMinus(gi: RawGroups, gone: set<int>)
    ensures AllWellFormed(gi) ==> AllWellFormed(gi - gone)
    ensures Abs(gi - gone) == Abs(gi) - gone
  {
  }

  lemma PutGroup(gi: RawGroups, g: int, m: RawSlices)
    ensures AllWellFormed(gi) && WellFormed(m) ==> AllWellFormed(gi[g := m])
    ensures g in gi ==> gi[g := m].Keys == gi.Keys
  {
  }

  lemma DropSame(groups: GroupMap, succ: int, done: set<int>, g: int)
    requires g in groups && g !in done && KeyOf(succ) !in groups[g]
    ensures DropTo(groups, succ, done + {g}) == DropTo(groups, succ, done)
    ensures UsersAmong(groups, KeyOf(succ), done + {g}) == UsersAmong(groups, KeyOf(succ), done)
  {
    DropStep(groups, succ, done, g);
  }

  lemma StripAt(groups: GroupMap, be: int, done: set<int>, g: int)
    requires g in groups && g !in done
    ensures SlicesOf(StripTo(groups, be, done), g) == groups[g]
  {
  }

  ghost function VanishingAmong(groups: GroupMap, be: int, done: set<int>): set<int> {
    set g | g in done && g in groups && Stripped(g, groups[g], be) == map[]
  }

  lemma VanishingStep(groups: GroupMap, be: int, done: set<int>, k: int)
    requires k in groups && k !in done
    ensures VanishingAmong(groups, be, done + {k})
            == VanishingAmong(groups, be, done) + if Stripped(k, groups[k], be) == map[] then {k} else {}
  {
    hide Stripped;
  }

  lemma VanishingAll(groups: GroupMap, be: int)
    ensures VanishingAmong(groups, be, groups.Keys) == Vanishing(groups, be)
    ensures VanishingAmong(groups, be, {}) == {}
  {
    hide Stripped;
  }

  ghost function UsersAmong(groups: GroupMap, key: int, done: set<int>): set<int> {
    set g | g in done && g in groups && key in groups[g]
  }

  lemma UsersStep(groups: GroupMap, key: int, done: set<int>, k: int)
    requires k in groups
    ensures UsersAmong(groups, key, done + {k}) == UsersAmong(groups, key, done) + if key in groups[k] then {k} else {}
  {
  }

  lemma UsersAll(groups: GroupMap, key: int)
    ensures UsersAmong(groups, key, groups.Keys) == UsersOf(groups, key)
    ensures UsersAmong(groups, key, {}) == {}
  {
  }

  method RangeGroup(start: int, end: int) returns (slice: seq<Range>)
    requires start <= end
    ensures Canonical(slice) && Members(slice) == Range(start, end + 1).Ids()
  {
    var grp := new Group();
    grp.Add(Range(start, end + 1));
    slice := grp.rangeList;
  }

  lemma Appended(t: Table, succ: int, lo: int, hi: int, succs: seq<int>)
    requires succs == if succ != VALIDBACKENDIDS then [succ] else Span(lo, hi + 1)
    ensures var ids := Span(lo, hi + 1);
            Tables.InitSubGroup(t, succ, lo, hi)
            == Table(Tables.PutSlice(t.groups, SCI_GROUP_ALL, succ, Range(lo, hi + 1).Ids()),
                     t.beNum[SCI_GROUP_ALL := NumAt(t.beNum, SCI_GROUP_ALL) + |ids|],
                     t.beList[SCI_GROUP_ALL := ListAt(t.beList, SCI_GROUP_ALL) + ids],
                     t.succNum[SCI_GROUP_ALL := NumAt(t.succNum, SCI_GROUP_ALL) + |succs|],
                     t.succList[SCI_GROUP_ALL := ListAt(t.succList, SCI_GROUP_ALL) + succs])
  {
  }

  method IdList(start: int, end: int) returns (ids: seq<int>)
    requires start <= end
    ensures ids == Span(start, end + 1)
  {
    ids := [];
    for id := start to end + 1
      invariant ids == Span(start, id)
    {
      ids := ids + [id];
    }
  }

  lemma Touched(groups: GroupMap, g: int)
    ensures g in groups ==> Touch(groups, g) == groups
  {
  }

  lemma GroupSetOf(g: Group)
    ensures g.Set() == Members(g.rangeList) && Members([]) == {}
    ensures g.Valid() <==> Canonical(g.rangeList)
  {
  }

  lemma SetsMissing(m: RawSlices, c: int)
    ensures c !in m ==> Get(Sets(m), c) == {}
  {
  }

  /** Erase the old list; a list comes back with its first element. */
  function PutList(lists: map<int, seq<int>>, g: int, list: seq<int>): map<int, seq<int>> {
    if list == [] then lists - {g} else lists[g := list]
  }

  lemma ResetOne(t: Table, g: int)
    ensures var bes, succs := BeListOf(SlicesOf(t.groups, g)), SuccListOf(SlicesOf(t.groups, g));
            ResetMany(t, {g}) == Table(t.groups, t.beNum[g := |bes|], PutList(t.beList, g, bes),
                                       t.succNum[g := |succs|], PutList(t.succList, g, succs))
  {
    var bes, succs := BeListOf(SlicesOf(t.groups, g)), SuccListOf(SlicesOf(t.groups, g));
    assert BeLists(t.groups, {g}) == map[g := bes];
    assert SuccLists(t.groups, {g}) == map[g := succs];
    OneList(t.beNum, t.beList, g, bes);
    OneList(t.succNum, t.succList, g, succs);
  }

  lemma OneList(nums: map<int, int>, lists: map<int, seq<int>>, g: int, list: seq<int>)
    ensures Renum(nums, map[g := list]) == nums[g := |list|]
    ensures Relist(lists, map[g := list]) == PutList(lists, g, list)
  {
  }

  // ----- collecting the cached lists -----

  ghost function BeListTo(keys: seq<int>, sl: Slices, n: nat): seq<int>
    requires n <= |keys|
  {
    if n == 0 then [] else BeListTo(keys, sl, n - 1) + Enumerate(Get(sl, keys[n - 1]))
  }

  lemma {:induction false} BeListToAll(keys: seq<int>, sl: Slices, n: nat)
    requires n <= |keys|
    ensures BeListFrom(keys, sl) == BeListTo(keys, sl, n) + BeListFrom(keys[n..], sl)
  {
    if n == 0 {
      assert keys[0..] == keys;
    } else {
      BeListToAll(keys, sl, n - 1);
      assert keys[n - 1..][0] == keys[n - 1] && keys[n - 1..][1..] == keys[n..];
      ConcatAssoc(BeListTo(keys, sl, n - 1), Enumerate(Get(sl, keys[n - 1])), BeListFrom(keys[n..], sl));
    }
  }

  lemma ConcatAssoc(a: seq<int>, b: seq<int>, c: seq<int>)
    ensures a + b + c == a + (b + c)
  {
  }

  ghost function SuccIds(sl: Slices, k: int): seq<int> {
    if k == VALIDBACKENDIDS then Enumerate(Get(sl, k)) else [k]
  }

  ghost function SuccListTo(keys: seq<int>, sl: Slices, n: nat): seq<int>
    requires n <= |keys|
  {
    if n == 0 then [] else SuccListTo(keys, sl, n - 1) + SuccIds(sl, keys[n - 1])
  }

  lemma {:induction false} SuccListToAll(keys: seq<int>, sl: Slices, n: nat)
    requires n <= |keys|
    ensures SuccListFrom(keys, sl) == SuccListTo(keys, sl, n) + SuccListFrom(keys[n..], sl)
  {
    if n == 0 {
      assert keys[0..] == keys;
    } else {
      SuccListToAll(keys, sl, n - 1);
      assert keys[n - 1..][0] == keys[n - 1] && keys[n - 1..][1..] == keys[n..];
      ConcatAssoc(SuccListTo(keys, sl, n - 1), SuccIds(sl, keys[n - 1]), SuccListFrom(keys[n..], sl));
    }
  }

  method SliceIds(slices: RawSlices, k: int) returns (ids: seq<int>)
    requires WellFormed(slices) && k in slices
    ensures ids == Enumerate(Get(Sets(slices), k))
  {
    var grp := new Group.Of(slices[k]);
    var members, _ := Iterate(grp);
    ids := members;
  }

  method CollectBackEnds(slices: RawSlices) returns (list: seq<int>)
    requires WellFormed(slices)
    ensures list == BeListOf(Sets(slices))
  {
    var keys := Enumerate(slices.Keys);
    ghost var sl := Sets(slices);
    list := [];
    for i := 0 to |keys|
      invariant list == BeListTo(keys, sl, i)
    {
      EnumerateMember(slices.Keys, i);
      var ids := SliceIds(slices, keys[i]);
      list := list + ids;
    }
    BeListToAll(keys, sl, |keys|);
    assert sl.Keys == slices.Keys;
  }

  method CollectSuccessors(slices: RawSlices) returns (list: seq<int>)
    requires WellFormed(slices)
    ensures list == SuccListOf(Sets(slices))
  {
    var keys := Enumerate(slices.Keys);
    ghost var sl := Sets(slices);
    list := [];
    for i := 0 to |keys|
      invariant list == SuccListTo(keys, sl, i)
    {
      EnumerateMember(slices.Keys, i);
      if keys[i] != VALIDBACKENDIDS {
        list := list + [keys[i]];
      } else {
        var ids := SliceIds(slices, keys[i]);
        list := list + ids;
      }
    }
    SuccListToAll(keys, sl, |keys|);
    assert sl.Keys == slices.Keys;
  }
}
