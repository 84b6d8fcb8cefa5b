/**
 * The routing table of one node as a value: which successor leads to which back ends, group by group,
 * together with the cached counts and lists, and what each operation of `DistributedGroup` does to it.
 */
module Tables {
  import opened SortedSets
  import opened Ranges
  import opened Groups

  const SCI_GROUP_ALL: int := -1
  const VALIDBACKENDIDS: int := -1073741824  // -1024 * 1024 * 1024
  const INVLIDSUCCESSORID: int := -999999999

  /** One group: the back ends reached through each successor. */
  type Slices = map<int, set<int>>

  type GroupMap = map<int, Slices>

  datatype Table = Table(
    groups: GroupMap,
    beNum: map<int, int>,
    beList: map<int, seq<int>>,
    succNum: map<int, int>,
    succList: map<int, seq<int>>)

  const Empty := Table(map[], map[], map[], map[], map[])

  function Get(sl: Slices, c: int): set<int> {
    if c in sl then sl[c] else {}
  }

  function SlicesOf(groups: GroupMap, g: int): Slices {
    if g in groups then groups[g] else map[]
  }

  function Slice(groups: GroupMap, g: int, c: int): set<int> {
    Get(SlicesOf(groups, g), c)
  }

  /** All back ends of one group. */
  function Union(sl: Slices): set<int> {
    set c, x | c in sl && x in sl[c] :: x
  }

  function GroupSet(groups: GroupMap, g: int): set<int> {
    Union(SlicesOf(groups, g))
  }

  // ----- the cached lists -----

  function BeListFrom(keys: seq<int>, sl: Slices): seq<int> {
    if keys == [] then [] else Enumerate(Get(sl, keys[0])) + BeListFrom(keys[1..], sl)
  }

  function SuccListFrom(keys: seq<int>, sl: Slices): seq<int> {
    if keys == [] then []
    else (if keys[0] == VALIDBACKENDIDS then Enumerate(Get(sl, keys[0])) else [keys[0]]) + SuccListFrom(keys[1..], sl)
  }

  function BeListOf(sl: Slices): seq<int> {
    BeListFrom(Enumerate(sl.Keys), sl)
  }

  function SuccListOf(sl: Slices): seq<int> {
    SuccListFrom(Enumerate(sl.Keys), sl)
  }

  function ListAt(lists: map<int, seq<int>>, g: int): seq<int> {
    if g in lists then lists[g] else []
  }

  function NumAt(nums: map<int, int>, g: int): int {
    if g in nums then nums[g] else 0
  }

  function BeListAt(t: Table, g: int): seq<int> {
    ListAt(t.beList, g)
  }

  function BeNumAt(t: Table, g: int): int {
    NumAt(t.beNum, g)
  }

  function SuccListAt(t: Table, g: int): seq<int> {
    ListAt(t.succList, g)
  }

  function SuccNumAt(t: Table, g: int): int {
    NumAt(t.succNum, g)
  }

  // ----- invariants -----

  /** No two slices share a back end. */
  ghost predicate DisjointSlices(sl: Slices) {
    forall c, d :: c in sl && d in sl && c != d ==> sl[c] !! sl[d]
  }

  /** Every back end has at most one owner. */
  ghost predicate Partitioned(groups: GroupMap) {
    DisjointSlices(SlicesOf(groups, SCI_GROUP_ALL))
  }

  /** Every group sends a back end the way the whole tree does. */
  ghost predicate Contained(groups: GroupMap) {
    forall g, c :: Slice(groups, g, c) <= Slice(groups, SCI_GROUP_ALL, c)
  }

  ghost predicate BeCoherentAt(t: Table, g: int) {
    && multiset(BeListAt(t, g)) == multiset(BeListOf(SlicesOf(t.groups, g)))
    && BeNumAt(t, g) == |BeListAt(t, g)|
  }

  ghost predicate SuccCoherentAt(t: Table, g: int) {
    && multiset(SuccListAt(t, g)) == multiset(SuccListOf(SlicesOf(t.groups, g)))
    && SuccNumAt(t, g) == |SuccListAt(t, g)|
  }

  ghost predicate CoherentAt(t: Table, g: int) {
    BeCoherentAt(t, g) && SuccCoherentAt(t, g)
  }

  /** The caches agree with the slices. */
  ghost predicate Coherent(t: Table) {
    forall g :: CoherentAt(t, g)
  }

  ghost predicate Invariant(t: Table) {
    Partitioned(t.groups) && Contained(t.groups) && Coherent(t)
  }

  // ----- looking up -----

  /** `querySuccessorId`: the first successor, in key order, whose slice holds the back end. */
  function Query(sl: Slices, x: int): int {
    var holders := set c | c in sl && x in sl[c];
    if holders == {} then INVLIDSUCCESSORID else Least(holders)
  }

  // ----- operations on the slices -----

  function Touch(groups: GroupMap, g: int): GroupMap {
    if g in groups then groups else groups[g := map[]]
  }

  /** Adds slices to a group; a group springs into being with its first slice. */
  function PutAll(groups: GroupMap, g: int, add: Slices): GroupMap {
    if add == map[] then groups else groups[g := SlicesOf(groups, g) + add]
  }

  /** The part of each slice inside (or outside) a set; successors left with nothing disappear. */
  function Within(sl: Slices, s: set<int>): Slices {
    map c | c in sl && sl[c] * s != {} :: sl[c] * s
  }

  function Outside(sl: Slices, s: set<int>): Slices {
    map c | c in sl && sl[c] - s != {} :: sl[c] - s
  }

  function CreateGroups(groups: GroupMap, list: set<int>, g: int): GroupMap {
    Touch(PutAll(groups, g, Within(SlicesOf(groups, SCI_GROUP_ALL), list)), g)
  }

  datatype SetOp = SCI_UNION | SCI_INTERSECTION | SCI_DIFFERENCE

  /** Slice-by-slice algebra of two groups. */
  function Combine(a: Slices, b: Slices, op: SetOp): Slices {
    match op
    case SCI_UNION => map c | c in a.Keys + b.Keys :: Get(a, c) + Get(b, c)
    case SCI_INTERSECTION => map c | c in a && c in b && a[c] * b[c] != {} :: a[c] * b[c]
    case SCI_DIFFERENCE => map c | c in a && a[c] - Get(b, c) != {} :: a[c] - Get(b, c)
  }

  /** The group entries that merely looking a group up brings into being. */
  function LookedUp(groups: GroupMap, g1: int, g2: int, op: SetOp): GroupMap {
    if op == SCI_UNION then Touch(Touch(groups, g1), g2)
    else if SlicesOf(groups, g1) == map[] then groups
    else Touch(groups, g2)
  }

  function Operated(groups: GroupMap, g1: int, g2: int, op: SetOp): Slices {
    Combine(SlicesOf(groups, g1), SlicesOf(groups, g2), op)
  }

  /** A union always counts as a group; the other operations only when a member is left. */
  predicate Made(op: SetOp, made: Slices) {
    op == SCI_UNION || made != map[]
  }

  function OperateGroups(groups: GroupMap, g1: int, g2: int, op: SetOp, newgroup: int): GroupMap {
    var made := Operated(groups, g1, g2, op);
    var gs := PutAll(LookedUp(groups, g1, g2, op), newgroup, made);
    if Made(op, made) then Touch(gs, newgroup) else gs
  }

  /**
   * The union of `operateExt`: the whole ALL slice of a successor the group already uses, and the listed part
   * elsewhere.
   */
  function ExtUnion(all: Slices, own: Slices, list: set<int>): Slices {
    map c | c in all && (c in own || all[c] * list != {}) :: if c in own then all[c] else all[c] * list
  }

  function CombineExt(all: Slices, own: Slices, list: set<int>, op: SetOp): Slices {
    match op
    case SCI_UNION => ExtUnion(all, own, list)
    case SCI_INTERSECTION => Within(own, list)
    case SCI_DIFFERENCE => Outside(own, list)
  }

  function OperatedExt(groups: GroupMap, g: int, list: set<int>, op: SetOp): Slices {
    CombineExt(SlicesOf(groups, SCI_GROUP_ALL), SlicesOf(groups, g), list, op)
  }

  function OperateExtGroups(groups: GroupMap, g: int, list: set<int>, op: SetOp, newgroup: int): GroupMap {
    var made := OperatedExt(groups, g, list, op);
    var looked := if op == SCI_UNION && SlicesOf(groups, SCI_GROUP_ALL) != map[] then Touch(groups, g) else groups;
    var gs := PutAll(looked, newgroup, made);
    if Made(op, made) then Touch(gs, newgroup) else gs
  }

  function PutSlice(groups: GroupMap, g: int, c: int, s: set<int>): GroupMap {
    groups[g := SlicesOf(groups, g)[c := s]]
  }

  /** Slices of group `g` without `be`. Emptied slices go, except that ALL keeps those of negative ids (agents). */
  function Stripped(g: int, sl: Slices, be: int): Slices {
    map c | c in sl && (sl[c] - {be} != {} || (g == SCI_GROUP_ALL && c < 0)) :: sl[c] - {be}
  }

  /** The groups that have no slice left once `be` is gone. */
  function Vanishing(groups: GroupMap, be: int): set<int> {
    set g | g in groups && Stripped(g, groups[g], be) == map[]
  }

  function RemoveBEGroups(groups: GroupMap, be: int): GroupMap {
    map g | g in groups && Stripped(g, groups[g], be) != map[] :: Stripped(g, groups[g], be)
  }

  /** Dropping a back end empties its place in the directly attached slice; dropping an agent erases its slice. */
  function Dropped(sl: Slices, succ: int): Slices {
    if succ >= 0 then
      if VALIDBACKENDIDS in sl then sl[VALIDBACKENDIDS := sl[VALIDBACKENDIDS] - {succ}] else sl
    else sl - {succ}
  }

  function DropGroups(groups: GroupMap, succ: int): GroupMap {
    map g | g in groups :: Dropped(groups[g], succ)
  }

  /** Where the back ends of a successor are filed. */
  function KeyOf(succ: int): int {
    if succ >= 0 then VALIDBACKENDIDS else succ
  }

  function UsersOf(groups: GroupMap, key: int): set<int> {
    set g | g in groups && key in groups[g]
  }

  /** What a merge adds to a group: the back end itself, or everything the incoming agent reports for that group. */
  function Gain(succ: int, incoming: Slices): set<int> {
    if succ >= 0 then {succ} else Union(incoming)
  }

  /** The merged successor gains, and what is then filed under it leaves every other slice. */
  function MergeInto(sl: Slices, succ: int, incoming: Slices): Slices {
    var owned := Get(sl, KeyOf(succ)) + Gain(succ, incoming);
    var taken := if succ >= 0 then {succ} else owned;
    map c | c in sl.Keys + {KeyOf(succ)} :: if c == KeyOf(succ) then owned else sl[c] - taken
  }

  function MergeGroups(groups: GroupMap, succ: int, incoming: GroupMap, overwrite: bool): GroupMap {
    map g | g in groups.Keys + incoming.Keys && (g in groups || overwrite)
      :: if g !in incoming then groups[g]
         else if g in groups then MergeInto(groups[g], succ, incoming[g])
         else map[KeyOf(succ) := Gain(succ, incoming[g])]
  }

  // ----- operations on the table -----

  function BeLists(groups: GroupMap, gs: set<int>): map<int, seq<int>> {
    map g | g in gs :: BeListOf(SlicesOf(groups, g))
  }

  function SuccLists(groups: GroupMap, gs: set<int>): map<int, seq<int>> {
    map g | g in gs :: SuccListOf(SlicesOf(groups, g))
  }

  function Renum(nums: map<int, int>, lists: map<int, seq<int>>): map<int, int> {
    nums + map g | g in lists :: |lists[g]|
  }

  /** A rebuilt list replaces the old one; an empty one has no entry. */
  function Relist(was: map<int, seq<int>>, lists: map<int, seq<int>>): map<int, seq<int>> {
    (was - lists.Keys) + map g | g in lists && lists[g] != [] :: lists[g]
  }

  /** `reset` for every group of `gs`. */
  function ResetMany(t: Table, gs: set<int>): Table {
    var bes, succs := BeLists(t.groups, gs), SuccLists(t.groups, gs);
    Table(t.groups, Renum(t.beNum, bes), Relist(t.beList, bes), Renum(t.succNum, succs), Relist(t.succList, succs))
  }

  lemma ResetGroups(t: Table, gs: set<int>)
    ensures ResetMany(t, gs).groups == t.groups
  {
  }

  /** Drops the caches of a set of groups. */
  function EraseCaches(t: Table, gs: set<int>): Table {
    Table(t.groups, t.beNum - gs, t.beList - gs, t.succNum - gs, t.succList - gs)
  }

  function Create(t: Table, list: set<int>, g: int): Table {
    ResetMany(t.(groups := CreateGroups(t.groups, list, g)), {g})
  }

  function Operate(t: Table, g1: int, g2: int, op: SetOp, newgroup: int): Table {
    ResetMany(t.(groups := OperateGroups(t.groups, g1, g2, op, newgroup)),
              if Made(op, Operated(t.groups, g1, g2, op)) then {newgroup} else {})
  }

  function OperateExt(t: Table, g: int, list: set<int>, op: SetOp, newgroup: int): Table {
    ResetMany(t.(groups := OperateExtGroups(t.groups, g, list, op, newgroup)),
              if Made(op, OperatedExt(t.groups, g, list, op)) then {newgroup} else {})
  }

  function InitSubGroup(t: Table, succ: int, lo: int, hi: int): Table {
    var g, ids := SCI_GROUP_ALL, Span(lo, hi + 1);
    var succs := if succ != VALIDBACKENDIDS then [succ] else ids;
    Table(PutSlice(t.groups, g, succ, Range(lo, hi + 1).Ids()),
          t.beNum[g := BeNumAt(t, g) + |ids|],
          t.beList[g := BeListAt(t, g) + ids],
          t.succNum[g := SuccNumAt(t, g) + |succs|],
          t.succList[g := SuccListAt(t, g) + succs])
  }

  function AddBE(t: Table, g: int, succ: int, be: int): Table {
    ResetMany(t.(groups := PutSlice(t.groups, g, succ, Slice(t.groups, g, succ) + {be})), {g})
  }

  function Remove(t: Table, g: int): Table {
    EraseCaches(t.(groups := t.groups - {g}), {g})
  }

  function RemoveBE(t: Table, be: int): Table {
    var gs := RemoveBEGroups(t.groups, be);
    ResetMany(EraseCaches(t.(groups := gs), Vanishing(t.groups, be)), gs.Keys)
  }

  function DropSuccessor(t: Table, succ: int): Table {
    ResetMany(t.(groups := DropGroups(t.groups, succ)), UsersOf(t.groups, KeyOf(succ)))
  }

  function Merge(t: Table, succ: int, incoming: GroupMap, overwrite: bool): Table {
    var gs := MergeGroups(t.groups, succ, incoming, overwrite);
    ResetMany(t.(groups := gs), gs.Keys * incoming.Keys)
  }
}
