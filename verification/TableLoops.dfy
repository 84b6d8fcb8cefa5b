/** Facts about the loops over key-ordered maps: what has been computed after the first few keys. */
module TableLoops {
  import opened SortedSets
  import opened Ranges
  import opened Groups
  import opened Tables

  // ----- range lists as the slices they stand for -----

  type RawSlices = map<int, seq<Range>>
  type RawGroups = map<int, RawSlices>

  ghost predicate WellFormed(m: RawSlices) {
    forall c :: c in m ==> Canonical(m[c])
  }

  ghost predicate AllWellFormed(gi: RawGroups) {
    forall g :: g in gi ==> WellFormed(gi[g])
  }

  function Sets(m: RawSlices): Slices {
    map c | c in m :: Members(m[c])
  }

  function Abs(gi: RawGroups): GroupMap {
    map g | g in gi :: Sets(gi[g])
  }

  function RawSlicesOf(gi: RawGroups, g: int): RawSlices {
    if g in gi then gi[g] else map[]
  }

  lemma SetsPut(m: RawSlices, c: int, r: seq<Range>)
    ensures Sets(m[c := r]) == Sets(m)[c := Members(r)]
  {
  }

  lemma SliceAt(m: RawSlices, c: int)
    requires WellFormed(m) && c in m
    ensures Canonical(m[c]) && Get(Sets(m), c) == Members(m[c])
  {
  }

  lemma AbsPut(gi: RawGroups, g: int, m: RawSlices)
    ensures Abs(gi[g := m]) == Abs(gi)[g := Sets(m)]
  {
  }

  lemma AbsSlices(gi: RawGroups, g: int)
    ensures SlicesOf(Abs(gi), g) == Sets(RawSlicesOf(gi, g))
  {
  }

  // ----- a map built key by key -----

  ghost function FilterMap(keys: set<int>, want: int -> bool, val: int -> set<int>): Slices {
    map c | c in keys && want(c) :: val(c)
  }

  lemma FilterMapStep(keys: set<int>, k: int, want: int -> bool, val: int -> set<int>)
    ensures FilterMap(keys + {k}, want, val)
            == if want(k) then FilterMap(keys, want, val)[k := val(k)] else FilterMap(keys, want, val)
  {
    var a, b := FilterMap(keys + {k}, want, val), FilterMap(keys, want, val);
    if want(k) {
      assert a.Keys == b[k := val(k)].Keys;
    } else {
      assert a.Keys == b.Keys;
    }
  }

  /** The keys visited before position `i`, in key order. */
  ghost function Done(s: set<int>, i: nat): set<int>
    requires i <= |Enumerate(s)|
  {
    Elements(Enumerate(s)[..i])
  }

  lemma DoneStep(s: set<int>, i: nat)
    requires i < |Enumerate(s)|
    ensures Enumerate(s)[i] in s && Enumerate(s)[i] !in Done(s, i)
    ensures Done(s, i + 1) == Done(s, i) + {Enumerate(s)[i]}
  {
    var q := Enumerate(s);
    EnumerateAscends(s);
    EnumerateMember(s, i);
    assert q[..i + 1] == q[..i] + [q[i]];
  }

  lemma DoneAll(s: set<int>)
    ensures Done(s, |Enumerate(s)|) == s && Done(s, 0) == {}
  {
    EnumerateAscends(s);
    assert Enumerate(s)[..|Enumerate(s)|] == Enumerate(s);
  }

  /** The slices built so far are the wanted ones among the keys visited so far. */
  ghost predicate Built(made: RawSlices, done: set<int>, want: int -> bool, val: int -> set<int>) {
    WellFormed(made) && Sets(made) == FilterMap(done, want, val)
  }

  lemma BuiltNothing(gi: RawGroups, g: int, want: int -> bool, val: int -> set<int>)
    ensures Built(map[], {}, want, val) && PutRaw(gi, g, map[]) == gi
  {
  }

  lemma BuiltStep(made: RawSlices, done: set<int>, want: int -> bool, val: int -> set<int>, k: int, part: seq<Range>)
    requires Built(made, done, want, val)
    requires want(k) ==> Canonical(part) && Members(part) == val(k)
    ensures Built(if want(k) then made[k := part] else made, done + {k}, want, val)
    ensures made[k := part] != map[]
  {
    assert k in made[k := part];
    FilterMapStep(done, k, want, val);
    SetsPut(made, k, part);
  }

  /** A new group with the slices `made`; with none, the group does not exist yet. */
  function PutRaw(gi: RawGroups, g: int, made: RawSlices): RawGroups {
    if made == map[] then gi else gi[g := made]
  }

  function PutRawSlice(gi: RawGroups, g: int, c: int, r: seq<Range>): RawGroups {
    gi[g := RawSlicesOf(gi, g)[c := r]]
  }

  lemma PutRawStep(gi: RawGroups, g: int, made: RawSlices, c: int, r: seq<Range>)
    requires g !in gi
    ensures PutRawSlice(PutRaw(gi, g, made), g, c, r) == PutRaw(gi, g, made[c := r])
  {
    assert c in made[c := r];
  }

  lemma PutRawAbs(gi: RawGroups, g: int, made: RawSlices)
    requires g !in gi
    ensures Abs(PutRaw(gi, g, made)) == PutAll(Abs(gi), g, Sets(made))
  {
    AbsPut(gi, g, made);
    assert made == map[] <==> Sets(made) == map[] by {
      if made != map[] {
        assert made.Keys != {};
        NonEmptyHasMember(made.Keys);
        var c :| c in made.Keys;
        assert c in Sets(made);
      }
    }
    var none: Slices := map[];
    assert none + Sets(made) == Sets(made);
  }

  lemma PutRawWellFormed(gi: RawGroups, g: int, made: RawSlices)
    requires AllWellFormed(gi) && WellFormed(made)
    ensures AllWellFormed(PutRaw(gi, g, made))
  {
  }

  function TouchRaw(gi: RawGroups, g: int): RawGroups {
    if g in gi then gi else gi[g := map[]]
  }

  lemma TouchRawAbs(gi: RawGroups, g: int)
    ensures Abs(TouchRaw(gi, g)) == Touch(Abs(gi), g)
  {
    AbsPut(gi, g, map[]);
  }

  lemma GroupAt(gi: RawGroups, g: int)
    requires AllWellFormed(gi)
    ensures WellFormed(RawSlicesOf(gi, g))
    ensures g in gi ==> RawSlicesOf(gi, g) == gi[g]
    ensures SlicesOf(Abs(gi), g) == Sets(RawSlicesOf(gi, g))
    ensures g in Abs(gi) <==> g in gi
  {
  }

  // ----- what each filling loop has built when it ends -----

  lemma BuiltWithin(made: RawSlices, src: RawSlices, s: set<int>, want: int -> bool, val: int -> set<int>)
    requires Built(made, src.Keys, want, val)
    requires val == (c => Get(Sets(src), c) * s) && want == (c => val(c) != {})
    ensures WellFormed(made) && Sets(made) == Within(Sets(src), s)
  {
  }

  lemma BuiltOutside(made: RawSlices, src: RawSlices, s: set<int>, want: int -> bool, val: int -> set<int>)
    requires Built(made, src.Keys, want, val)
    requires val == (c => Get(Sets(src), c) - s) && want == (c => val(c) != {})
    ensures WellFormed(made) && Sets(made) == Outside(Sets(src), s)
  {
  }

  lemma BuiltIntersection(made: RawSlices, a: RawSlices, b: RawSlices, want: int -> bool, val: int -> set<int>)
    requires Built(made, a.Keys, want, val)
    requires val == (c => Get(Sets(a), c) * Get(Sets(b), c)) && want == (c => c in b && val(c) != {})
    ensures WellFormed(made) && Sets(made) == Combine(Sets(a), Sets(b), SCI_INTERSECTION)
  {
  }

  lemma BuiltDifference(made: RawSlices, a: RawSlices, b: RawSlices, want: int -> bool, val: int -> set<int>)
    requires Built(made, a.Keys, want, val)
    requires val == (c => Get(Sets(a), c) - Get(Sets(b), c)) && want == (c => val(c) != {})
    ensures WellFormed(made) && Sets(made) == Combine(Sets(a), Sets(b), SCI_DIFFERENCE)
  {
  }

  lemma BuiltUnion(made: RawSlices, a: RawSlices, b: RawSlices, want: int -> bool, val: int -> set<int>)
    requires Built(made, a.Keys + b.Keys, want, val)
    requires val == (c => Get(Sets(a), c) + Get(Sets(b), c)) && want == (c => true)
    ensures WellFormed(made) && Sets(made) == Combine(Sets(a), Sets(b), SCI_UNION)
  {
  }

  lemma BuiltExtUnion(made: RawSlices, all: RawSlices, own: RawSlices, s: set<int>, want: int -> bool,
                      val: int -> set<int>)
    requires Built(made, all.Keys, want, val)
    requires val == (c => if c in own then Get(Sets(all), c) else Get(Sets(all), c) * s)
    requires want == (c => c in own || val(c) != {})
    ensures WellFormed(made) && Sets(made) == ExtUnion(Sets(all), Sets(own), s)
  {
  }

  // ----- the slices after each operation, read off the range lists -----

  function LookedUpRaw(gi: RawGroups, g1: int, g2: int, op: SetOp): RawGroups {
    if op == SCI_UNION then TouchRaw(TouchRaw(gi, g1), g2)
    else if RawSlicesOf(gi, g1) == map[] then gi
    else TouchRaw(gi, g2)
  }

  lemma SetsEmpty(m: RawSlices)
    ensures m == map[] <==> Sets(m) == map[]
  {
    assert m.Keys == Sets(m).Keys;
    if m != map[] {
      assert m.Keys != {};
      NonEmptyHasMember(m.Keys);
    }
  }

  lemma LookedUpAbs(gi: RawGroups, g1: int, g2: int, op: SetOp)
    ensures Abs(LookedUpRaw(gi, g1, g2, op)) == LookedUp(Abs(gi), g1, g2, op)
  {
    TouchRawAbs(gi, g1);
    TouchRawAbs(TouchRaw(gi, g1), g2);
    TouchRawAbs(gi, g2);
    AbsSlices(gi, g1);
    SetsEmpty(RawSlicesOf(gi, g1));
  }

  lemma LookedUpKeeps(gi: RawGroups, g1: int, g2: int, op: SetOp, h: int)
    ensures RawSlicesOf(LookedUpRaw(gi, g1, g2, op), h) == RawSlicesOf(gi, h)
    ensures AllWellFormed(gi) ==> AllWellFormed(LookedUpRaw(gi, g1, g2, op))
    ensures h != g1 && h != g2 && h !in gi ==> h !in LookedUpRaw(gi, g1, g2, op)
  {
  }

  lemma CreatedAbs(gi: RawGroups, g: int, list: set<int>, made: RawSlices)
    requires AllWellFormed(gi) && g !in gi
    requires WellFormed(made) && Sets(made) == Within(Sets(RawSlicesOf(gi, SCI_GROUP_ALL)), list)
    ensures AllWellFormed(PutRaw(gi, g, made))
    ensures Touch(Abs(PutRaw(gi, g, made)), g) == CreateGroups(Abs(gi), list, g)
  {
    PutRawAbs(gi, g, made);
    PutRawWellFormed(gi, g, made);
    AbsSlices(gi, SCI_GROUP_ALL);
  }

  lemma OperatedAbs(gi: RawGroups, g1: int, g2: int, op: SetOp, newgroup: int, made: RawSlices)
    requires AllWellFormed(gi) && newgroup !in gi && newgroup != g1 && newgroup != g2
    requires WellFormed(made)
    requires Sets(made) == Combine(Sets(RawSlicesOf(gi, g1)), Sets(RawSlicesOf(gi, g2)), op)
    ensures var gi' := PutRaw(LookedUpRaw(gi, g1, g2, op), newgroup, made);
            && AllWellFormed(gi')
            && (Made(op, Operated(Abs(gi), g1, g2, op)) <==> op == SCI_UNION || made != map[])
            && OperateGroups(Abs(gi), g1, g2, op, newgroup)
               == if op == SCI_UNION || made != map[] then Touch(Abs(gi'), newgroup) else Abs(gi')
  {
    var looked := LookedUpRaw(gi, g1, g2, op);
    LookedUpKeeps(gi, g1, g2, op, newgroup);
    LookedUpAbs(gi, g1, g2, op);
    PutRawAbs(looked, newgroup, made);
    PutRawWellFormed(looked, newgroup, made);
    AbsSlices(gi, g1);
    AbsSlices(gi, g2);
    SetsEmpty(made);
  }

  function LookedUpExtRaw(gi: RawGroups, g: int, op: SetOp): RawGroups {
    if op == SCI_UNION && RawSlicesOf(gi, SCI_GROUP_ALL) != map[] then TouchRaw(gi, g) else gi
  }

  lemma LookedUpExtKeeps(gi: RawGroups, g: int, op: SetOp, h: int)
    ensures RawSlicesOf(LookedUpExtRaw(gi, g, op), h) == RawSlicesOf(gi, h)
    ensures AllWellFormed(gi) ==> AllWellFormed(LookedUpExtRaw(gi, g, op))
    ensures h != g && h !in gi ==> h !in LookedUpExtRaw(gi, g, op)
  {
  }

  lemma OperatedExtAbs(gi: RawGroups, g: int, list: set<int>, op: SetOp, newgroup: int, made: RawSlices)
    requires AllWellFormed(gi) && newgroup !in gi && newgroup != g
    requires WellFormed(made)
    requires Sets(made) == CombineExt(Sets(RawSlicesOf(gi, SCI_GROUP_ALL)), Sets(RawSlicesOf(gi, g)), list, op)
    ensures var gi' := PutRaw(LookedUpExtRaw(gi, g, op), newgroup, made);
            && AllWellFormed(gi')
            && (Made(op, OperatedExt(Abs(gi), g, list, op)) <==> op == SCI_UNION || made != map[])
            && OperateExtGroups(Abs(gi), g, list, op, newgroup)
               == if op == SCI_UNION || made != map[] then Touch(Abs(gi'), newgroup) else Abs(gi')
  {
    var looked := LookedUpExtRaw(gi, g, op);
    LookedUpExtKeeps(gi, g, op, newgroup);
    TouchRawAbs(gi, g);
    PutRawAbs(looked, newgroup, made);
    PutRawWellFormed(looked, newgroup, made);
    AbsSlices(gi, g);
    AbsSlices(gi, SCI_GROUP_ALL);
    SetsEmpty(RawSlicesOf(gi, SCI_GROUP_ALL));
    SetsEmpty(made);
  }

  lemma PutSliceAbs(gi: RawGroups, g: int, c: int, r: seq<Range>)
    ensures Abs(PutRawSlice(gi, g, c, r)) == PutSlice(Abs(gi), g, c, Members(r))
    ensures AllWellFormed(gi) && Canonical(r) ==> AllWellFormed(PutRawSlice(gi, g, c, r))
  {
    AbsPut(gi, g, RawSlicesOf(gi, g)[c := r]);
    SetsPut(RawSlicesOf(gi, g), c, r);
    AbsSlices(gi, g);
  }

  lemma ResetNone(t: Table)
    ensures ResetMany(t, {}) == t
  {
    assert BeLists(t.groups, {}) == map[] && SuccLists(t.groups, {}) == map[];
    assert Renum(t.beNum, map[]) == t.beNum && Relist(t.beList, map[]) == t.beList;
    assert Renum(t.succNum, map[]) == t.succNum && Relist(t.succList, map[]) == t.succList;
  }

  // ----- rebuilding caches one group after another -----

  lemma ListsStep(nums: map<int, int>, was: map<int, seq<int>>, lists: map<int, seq<int>>, k: int, list: seq<int>)
    ensures Renum(Renum(nums, lists), map[k := list]) == Renum(nums, lists[k := list])
    ensures Relist(Relist(was, lists), map[k := list]) == Relist(was, lists[k := list])
  {
    RenumStep(nums, lists, k, list);
    RelistStep(was, lists, k, list);
  }

  lemma RenumStep(nums: map<int, int>, lists: map<int, seq<int>>, k: int, list: seq<int>)
    ensures Renum(Renum(nums, lists), map[k := list]) == Renum(nums, lists[k := list])
  {
  }

  lemma RelistStep(was: map<int, seq<int>>, lists: map<int, seq<int>>, k: int, list: seq<int>)
    ensures Relist(Relist(was, lists), map[k := list]) == Relist(was, lists[k := list])
  {
    hide Relist;
    var once := Relist(was, lists);
    var a, b := Relist(once, map[k := list]), Relist(was, lists[k := list]);
    forall g
      ensures (g in a <==> g in b) && (g in a ==> a[g] == b[g])
    {
      RelistAt(once, map[k := list], g);
      RelistAt(was, lists, g);
      RelistAt(was, lists[k := list], g);
    }
    assert a.Keys == b.Keys;
  }

  lemma RelistAt(was: map<int, seq<int>>, lists: map<int, seq<int>>, g: int)
    ensures g in Relist(was, lists) <==> if g in lists then lists[g] != [] else g in was
    ensures g in Relist(was, lists) ==> Relist(was, lists)[g] == if g in lists then lists[g] else was[g]
  {
  }

  /** Rebuilding the groups `gs` and then, after changing other groups, also `k`. */
  lemma ResetCompose(t: Table, before: GroupMap, after: GroupMap, gs: set<int>, k: int)
    requires forall g :: g in gs && g != k ==> SlicesOf(before, g) == SlicesOf(after, g)
    ensures ResetMany(ResetMany(t.(groups := before), gs).(groups := after), {k})
            == ResetMany(t.(groups := after), gs + {k})
  {
    var bes, succs := BeListOf(SlicesOf(after, k)), SuccListOf(SlicesOf(after, k));
    assert BeLists(after, {k}) == map[k := bes] && SuccLists(after, {k}) == map[k := succs];
    BeListsAgree(before, after, gs, k);
    SuccListsAgree(before, after, gs, k);
    ListsStep(t.beNum, t.beList, BeLists(before, gs), k, bes);
    ListsStep(t.succNum, t.succList, SuccLists(before, gs), k, succs);
  }

  lemma BeListsAgree(before: GroupMap, after: GroupMap, gs: set<int>, k: int)
    requires forall g :: g in gs && g != k ==> SlicesOf(before, g) == SlicesOf(after, g)
    ensures BeLists(after, gs + {k}) == BeLists(before, gs)[k := BeListOf(SlicesOf(after, k))]
  {
    hide BeListOf, SlicesOf;
    assert BeLists(after, gs + {k}).Keys == gs + {k};
  }

  lemma SuccListsAgree(before: GroupMap, after: GroupMap, gs: set<int>, k: int)
    requires forall g :: g in gs && g != k ==> SlicesOf(before, g) == SlicesOf(after, g)
    ensures SuccLists(after, gs + {k}) == SuccLists(before, gs)[k := SuccListOf(SlicesOf(after, k))]
  {
    hide SuccListOf, SlicesOf;
    assert SuccLists(after, gs + {k}).Keys == gs + {k};
  }

  // ----- removing a back end -----

  /** Every slice of the visited successors has lost `be`; the others are as they were. */
  ghost predicate Lightened(left: RawSlices, slices: RawSlices, done: set<int>, be: int) {
    && left.Keys == slices.Keys && WellFormed(left)
    && forall c :: c in slices ==>
                     Members(left[c]) == if c in done then Members(slices[c]) - {be} else Members(slices[c])
  }

  lemma LightenedStep(left: RawSlices, slices: RawSlices, done: set<int>, be: int, k: int, part: seq<Range>)
    requires Lightened(left, slices, done, be) && k in slices && k !in done
    requires Canonical(part) && Members(part) == Members(slices[k]) - {be}
    ensures Lightened(left[k := part], slices, done + {k}, be)
  {
  }

  /** The successors among `q` whose slice is erased when it has become empty. */
  ghost function Erasable(g: int, q: seq<int>): set<int> {
    set k | k in q && (g != SCI_GROUP_ALL || k >= 0)
  }

  ghost function EmptyAmong(left: RawSlices, done: set<int>): set<int> {
    set k | k in done && k in left && Members(left[k]) == {}
  }

  lemma EmptyAmongStep(left: RawSlices, done: set<int>, k: int, part: seq<Range>)
    requires k in left && k !in done
    ensures EmptyAmong(left[k := part], done + {k}) == EmptyAmong(left, done) + if Members(part) == {} then {k} else {}
  {
  }

  lemma StrippedSets(g: int, full: RawSlices, slices: RawSlices, be: int, junk: seq<int>)
    requires Lightened(full, slices, slices.Keys, be) && Elements(junk) == EmptyAmong(full, slices.Keys)
    ensures Sets(full - Erasable(g, junk)) == Stripped(g, Sets(slices), be)
    ensures WellFormed(full - Erasable(g, junk))
  {
    var a, b := Sets(full - Erasable(g, junk)), Stripped(g, Sets(slices), be);
    forall c
      ensures c in a <==> c in b
      ensures c in a && c in b ==> a[c] == b[c]
    {
      if c in slices {
        assert c in junk <==> c in Elements(junk);
        assert c in Erasable(g, junk) <==> Members(full[c]) == {} && (g != SCI_GROUP_ALL || c >= 0);
      }
    }
  }

  ghost function StripTo(groups: GroupMap, be: int, done: set<int>): GroupMap {
    map g | g in groups :: if g in done then Stripped(g, groups[g], be) else groups[g]
  }

  lemma StripStep(groups: GroupMap, be: int, done: set<int>, k: int)
    requires k in groups
    ensures StripTo(groups, be, done)[k := Stripped(k, groups[k], be)] == StripTo(groups, be, done + {k})
  {
    hide Stripped;
  }

  lemma StripAll(groups: GroupMap, be: int)
    ensures StripTo(groups, be, groups.Keys) - Vanishing(groups, be) == RemoveBEGroups(groups, be)
    ensures StripTo(groups, be, {}) == groups
  {
    hide Stripped;
  }

  // ----- dropping a successor -----

  ghost function DropTo(groups: GroupMap, succ: int, done: set<int>): GroupMap {
    map g | g in groups :: if g in done then Dropped(groups[g], succ) else groups[g]
  }

  lemma DropStep(groups: GroupMap, succ: int, done: set<int>, k: int)
    requires k in groups
    ensures DropTo(groups, succ, done)[k := Dropped(groups[k], succ)] == DropTo(groups, succ, done + {k})
    ensures k !in done ==> SlicesOf(DropTo(groups, succ, done), k) == groups[k]
    ensures KeyOf(succ) !in groups[k] ==> Dropped(groups[k], succ) == groups[k]
    ensures forall g :: g != k ==>
                          SlicesOf(DropTo(groups, succ, done), g) == SlicesOf(DropTo(groups, succ, done + {k}), g)
  {
  }

  lemma DropAll(groups: GroupMap, succ: int)
    ensures DropTo(groups, succ, groups.Keys) == DropGroups(groups, succ)
    ensures DropTo(groups, succ, {}) == groups
  {
    hide Dropped;
  }

  // ----- merging -----

  ghost function Only(incoming: GroupMap, done: set<int>): GroupMap {
    map g | g in incoming && g in done :: incoming[g]
  }

  /** The slices of one group after the merge. */
  ghost function MergedGroup(groups: GroupMap, succ: int, incoming: Slices, k: int): Slices {
    if k in groups then MergeInto(groups[k], succ, incoming) else map[KeyOf(succ) := Gain(succ, incoming)]
  }

  lemma MergeGroupsStep(groups: GroupMap, succ: int, incoming: GroupMap, overwrite: bool, done: set<int>, k: int)
    requires k in incoming && k !in done
    ensures var was := MergeGroups(groups, succ, Only(incoming, done), overwrite);
            && SlicesOf(was, k) == SlicesOf(groups, k) && (k in was <==> k in groups)
            && MergeGroups(groups, succ, Only(incoming, done + {k}), overwrite)
               == if k in groups || overwrite then was[k := MergedGroup(groups, succ, incoming[k], k)] else was
  {
    hide MergeInto, Gain;
    var was := MergeGroups(groups, succ, Only(incoming, done), overwrite);
    var got := MergeGroups(groups, succ, Only(incoming, done + {k}), overwrite);
    var want := if k in groups || overwrite then was[k := MergedGroup(groups, succ, incoming[k], k)] else was;
    forall g
      ensures g in got <==> g in want
      ensures g in got && g in want ==> got[g] == want[g]
    {
    }
  }

  lemma MergeStart(t: Table, succ: int, incoming: GroupMap, overwrite: bool)
    ensures Merge(t, succ, Only(incoming, {}), overwrite) == t
    ensures Only(incoming, incoming.Keys) == incoming
  {
    assert Only(incoming, {}) == map[];
    var gs := MergeGroups(t.groups, succ, map[], overwrite);
    assert gs == t.groups;
    assert gs.Keys * {} == {};
    ResetNone(t);
    assert t.(groups := gs) == t;
  }

  lemma MergeStep(t: Table, succ: int, incoming: GroupMap, overwrite: bool, done: set<int>, k: int)
    requires k in incoming && k !in done
    ensures var was := Merge(t, succ, Only(incoming, done), overwrite);
            Merge(t, succ, Only(incoming, done + {k}), overwrite)
            == if k in t.groups || overwrite then
                 ResetMany(was.(groups := was.groups[k := MergedGroup(t.groups, succ, incoming[k], k)]), {k})
               else was
  {
    hide ResetMany, MergeGroups, MergedGroup, SlicesOf;
    var part, more := Only(incoming, done), Only(incoming, done + {k});
    var before, after := MergeGroups(t.groups, succ, part, overwrite), MergeGroups(t.groups, succ, more, overwrite);
    MergeGroupsStep(t.groups, succ, incoming, overwrite, done, k);
    MergeKeys(t.groups, succ, incoming, overwrite, done, k);
    if k in t.groups || overwrite {
      SlicesElsewhere(before, k, MergedGroup(t.groups, succ, incoming[k], k));
      ResetCompose(t, before, after, before.Keys * part.Keys, k);
      ResetGroups(t.(groups := before), before.Keys * part.Keys);
    } else {
      assert after.Keys * more.Keys == before.Keys * part.Keys;
    }
  }

  lemma SlicesElsewhere(groups: GroupMap, k: int, sl: Slices)
    ensures forall g :: g != k ==> SlicesOf(groups, g) == SlicesOf(groups[k := sl], g)
    ensures SlicesOf(groups[k := sl], k) == sl
  {
  }

  lemma MergeKeys(groups: GroupMap, succ: int, incoming: GroupMap, overwrite: bool, done: set<int>, k: int)
    requires k in incoming && k !in done
    ensures var before := MergeGroups(groups, succ, Only(incoming, done), overwrite);
            var after := MergeGroups(groups, succ, Only(incoming, done + {k}), overwrite);
            after.Keys * Only(incoming, done + {k}).Keys
            == before.Keys * Only(incoming, done).Keys + if k in groups || overwrite then {k} else {}
  {
    hide MergeInto, Gain;
  }

  /** Of the visited successors, all but `key` have lost the back ends in `taken`. */
  ghost predicate Reduced(left: RawSlices, base: RawSlices, done: set<int>, key: int, taken: set<int>) {
    && left.Keys == base.Keys && WellFormed(left)
    && forall c :: c in base ==>
         Members(left[c]) == if c in done && c != key then Members(base[c]) - taken else Members(base[c])
  }

  lemma ReducedStart(base: RawSlices, key: int, taken: set<int>)
    requires WellFormed(base)
    ensures Reduced(base, base, {}, key, taken)
  {
  }

  lemma ReducedStep(left: RawSlices, base: RawSlices, done: set<int>, key: int, taken: set<int>, k: int,
                    part: seq<Range>)
    requires Reduced(left, base, done, key, taken) && k in base && k !in done
    requires k != key ==> Canonical(part) && Members(part) == Members(base[k]) - taken
    ensures Reduced(if k == key then left else left[k := part], base, done + {k}, key, taken)
  {
  }

  lemma ReducedIsMerge(left: RawSlices, slices: RawSlices, succ: int, incoming: Slices, own: seq<Range>,
                       taken: set<int>)
    requires WellFormed(slices)
    requires Members(own) == Get(Sets(slices), KeyOf(succ)) + Gain(succ, incoming)
    requires taken == if succ >= 0 then {succ} else Members(own)
    requires Reduced(left, slices[KeyOf(succ) := own], slices[KeyOf(succ) := own].Keys, KeyOf(succ), taken)
    ensures WellFormed(left) && Sets(left) == MergeInto(Sets(slices), succ, incoming)
  {
    hide Members, Canonical, Gain;
    var m := MergeInto(Sets(slices), succ, incoming);
    assert Sets(left).Keys == m.Keys;
    forall c | c in m
      ensures Sets(left)[c] == m[c]
    {
    }
  }

  /** The back ends of the visited slices. */
  ghost function UnionAmong(sl: Slices, done: set<int>): set<int> {
    set c, x | c in sl && c in done && x in sl[c] :: x
  }

  lemma UnionStep(sl: Slices, done: set<int>, k: int)
    requires k in sl
    ensures UnionAmong(sl, done + {k}) == UnionAmong(sl, done) + sl[k]
  {
    forall x
      ensures x in UnionAmong(sl, done + {k}) <==> x in UnionAmong(sl, done) || x in sl[k]
    {
      if x in sl[k] { assert k in sl && k in done + {k}; }
      if x in UnionAmong(sl, done) {
        var c :| c in sl && c in done && x in sl[c];
        assert c in done + {k};
      }
    }
  }

  lemma UnionAll(sl: Slices)
    ensures UnionAmong(sl, sl.Keys) == Union(sl) && UnionAmong(sl, {}) == {}
  {
  }
}
