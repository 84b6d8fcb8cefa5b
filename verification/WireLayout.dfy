/** Where everything lies on the wire, byte by byte, and what becomes of input that is cut short or malformed. */
module WireLayout {
  import opened SortedSets
  import opened Ranges
  import opened Groups
  import opened TableLoops
  import opened Packing
  import opened LongCodec
  import opened Streams
  import opened Messages
  import opened TableCodec

  const WORD: int := 0x1_0000_0000

  /** The number that bytes say, most significant first. */
  function BigEndian(b: seq<byte>): int {
    if b == [] then 0 else 0x100 * BigEndian(b[..|b| - 1]) + b[|b| - 1]
  }

  lemma BigEndianFour(b: seq<byte>)
    requires |b| == 4
    ensures BigEndian(b)
            == (b[0] as int) * 0x100_0000 + (b[1] as int) * 0x1_0000 + (b[2] as int) * 0x100 + b[3] as int
  {
    var c, d, e := b[..3], b[..2], b[..1];
    assert c[..2] == d && d[..1] == e && e[..0] == [];
    assert BigEndian(e) == b[0] as int;
    assert BigEndian(d) == 0x100 * (b[0] as int) + b[1] as int;
    assert BigEndian(c) == 0x100 * BigEndian(d) + b[2] as int;
  }

  /** An integer goes in network byte order, a negative one as its two's complement. */
  lemma NetworkOrder(v: int)
    requires Int32(v)
    ensures BigEndian(ToBytes(v)) == if v >= 0 then v else v + WORD
  {
    var u := if v < 0 then v + WORD else v;
    BigEndianFour(ToBytes(v));
    assert u / 0x100 / 0x100 == u / 0x1_0000 && u / 0x1_0000 / 0x100 == u / 0x100_0000;
  }

  lemma NetworkRead(b: seq<byte>)
    requires |b| == 4
    ensures FromBytes(b) == if BigEndian(b) < 0x8000_0000 then BigEndian(b) else BigEndian(b) - WORD
  {
    BigEndianFour(b);
  }

  /** The word at byte `4 * i`. */
  ghost predicate WordAt(b: seq<byte>, i: nat, v: int) {
    4 * i + 4 <= |b| && BigEndian(b[4 * i..4 * i + 4]) == if v >= 0 then v else v + WORD
  }

  lemma WordBetween(p: seq<byte>, v: int, q: seq<byte>, i: nat)
    requires Int32(v) && |p| == 4 * i
    ensures WordAt(p + ToBytes(v) + q, i, v)
  {
    hide ToBytes, BigEndian;
    NetworkOrder(v);
    assert (p + ToBytes(v) + q)[4 * i..4 * i + 4] == ToBytes(v);
  }

  // ----- streams -----

  /** A `long`: the width 8, the low 32 bits, and the low 32 bits of the value shifted right by four. */
  lemma LongLayout(v: int)
    ensures |PutLong(v)| == 12 && WordAt(PutLong(v), 0, 8)
    ensures BigEndian(PutLong(v)[4..8]) == v % WORD && BigEndian(PutLong(v)[8..12]) == v / 16 % WORD
  {
    hide ToBytes, BigEndian, LowPart, HighPart, Wrap32;
    ThreeWords(8, LowPart(v), HighPart(v));
    LowPartExact(v);
    WrapWord(v);
    HighPartIs(v);
    WrapWord(v / 16);
  }

  lemma ThreeWords(a: int, b: int, c: int)
    requires Int32(a) && Int32(b) && Int32(c)
    ensures var s := ToBytes(a) + ToBytes(b) + ToBytes(c);
            |s| == 12 && WordAt(s, 0, a) && WordAt(s, 1, b) && WordAt(s, 2, c)
  {
    hide ToBytes, WordAt;
    var x, y, z := ToBytes(a), ToBytes(b), ToBytes(c);
    WordBetween([], a, y + z, 0);
    WordBetween(x, b, z, 1);
    WordBetween(x + y, c, [], 2);
    assert [] + x + (y + z) == x + y + z == x + y + z + [];
  }

  lemma WrapWord(v: int)
    ensures (if Wrap32(v) >= 0 then Wrap32(v) else Wrap32(v) + WORD) == v % WORD
  {
  }

  lemma HighPartIs(v: int)
    ensures HighPart(v) == Wrap32(v / 16)
  {
  }

  /** A peer with a narrow `long` sends the width 4 and one word. */
  lemma NarrowLong(v: int, rest: seq<byte>)
    requires Int32(v)
    ensures TakeLong(ToBytes(4) + (ToBytes(v) + rest)) == Got(v, rest)
  {
    hide ToBytes, Streams.TakeInt;
    TakePutInt(4, ToBytes(v) + rest);
    TakePutInt(v, rest);
    JoinNothing(v);
  }

  lemma JoinNothing(v: int)
    requires Int32(v)
    ensures Join(0, v) == v
  {
    hide Or, Wrap32, Unsigned32;
    OrNothing(Unsigned32(v));
    NothingShifted();
    SignedAgain(v);
  }

  lemma NothingShifted()
    ensures Unsigned32(Wrap32(0 * 16)) == 0
  {
  }

  lemma SignedAgain(v: int)
    requires Int32(v)
    ensures Wrap32(Unsigned32(v)) == v
  {
    if v < 0 { assert (v + WORD) % WORD == v % WORD == v + WORD; }
  }

  lemma {:induction false} OrNothing(k: nat)
    ensures Or(0, k) == k
  {
    if k != 0 { OrNothing(k / 2); }
  }

  lemma VectorLayout(data: seq<byte>)
    ensures |PutVector(data)| == 12 + |data| && PutVector(data)[12..] == data
    ensures WordAt(PutVector(data), 0, 8) && BigEndian(PutVector(data)[4..8]) == |data| % WORD
  {
    hide PutLong, BigEndian;
    LongLayout(|data|);
    var all := PutVector(data);
    assert all[4..8] == PutLong(|data|)[4..8] && all[0..4] == PutLong(|data|)[0..4] && all[12..] == data;
  }

  /** A string of a given length: refused when negative or too large, cut at a NUL, short when too few bytes follow. */
  lemma StringOfLength(n: int, s: seq<byte>)
    requires Int32(n)
    ensures TakeString(ToBytes(n) + s)
            == if n < 0 || n > 0x80_0000 then Refused(NetErrData)
               else if n <= |s| then Got(CString(s[..n]), s[n..]) else Short
  {
    hide ToBytes, Streams.TakeInt, CString;
    TakePutInt(n, s);
  }

  /** The same for a vector, whose length is a narrow `long`. */
  lemma VectorOfLength(n: int, s: seq<byte>)
    requires Int32(n)
    ensures TakeVector(ToBytes(4) + (ToBytes(n) + s))
            == if n < 0 || n > 0x80_0000 then Refused(NetErrData)
               else if n <= |s| then Got(s[..n], s[n..]) else Short
  {
    hide ToBytes, TakeLong;
    NarrowLong(n, s);
  }

  /** What precedes the first NUL, or everything. */
  lemma {:induction false} CStringIs(s: seq<byte>)
    ensures CString(s) <= s && forall i :: 0 <= i < |CString(s)| ==> s[i] != 0
    ensures |CString(s)| < |s| ==> s[|CString(s)|] == 0
  {
    if s != [] && s[0] != 0 {
      CStringIs(s[1..]);
      forall i | 0 <= i < |CString(s)|
        ensures s[i] != 0
      {
        if i > 0 { assert s[i] == s[1..][i - 1]; }
      }
    }
  }

  lemma StringLayout(s: seq<byte>)
    requires |s| < 0x7fff_ffff
    ensures var n := |CString(s)|;
            && |PutString(s)| == n + 5 && WordAt(PutString(s), 0, n + 1)
            && PutString(s)[4..4 + n] == CString(s) && PutString(s)[4 + n] == 0
  {
    hide ToBytes, CString;
    var text := CString(s);
    WordBetween([], |text| + 1, text + [0], 0);
    assert [] + ToBytes(|text| + 1) + (text + [0]) == PutString(s);
  }

  // ----- messages -----

  /** Five words, the contents, and the signature as a vector. */
  lemma MessageLayout(m: Message, sec: Security)
    requires Sendable(m)
    ensures var wire := Encode(m, sec);
            && WordAt(wire, 0, m.typ) && WordAt(wire, 1, m.msgID) && WordAt(wire, 2, m.filterID)
            && WordAt(wire, 3, m.group) && WordAt(wire, 4, m.len)
            && 20 + m.len <= |wire| && wire[20..20 + m.len] == m.buf && wire[20 + m.len..] == PutVector(sec.sign(m))
  {
    hide ToBytes, PutVector, BigEndian, IsValidType;
    var a, b, c, d, e := ToBytes(m.typ), ToBytes(m.msgID), ToBytes(m.filterID), ToBytes(m.group), ToBytes(m.len);
    var tail := m.buf + PutVector(sec.sign(m));
    var wire := Encode(m, sec);
    assert wire == [] + a + (b + c + d + e + tail) && wire == a + b + (c + d + e + tail);
    assert wire == a + b + c + (d + e + tail) && wire == a + b + c + d + (e + tail) && wire == a + b + c + d + e + tail;
    WordBetween([], m.typ, b + c + d + e + tail, 0);
    WordBetween(a, m.msgID, c + d + e + tail, 1);
    WordBetween(a + b, m.filterID, d + e + tail, 2);
    WordBetween(a + b + c, m.group, e + tail, 3);
    WordBetween(a + b + c + d, m.len, tail, 4);
    assert wire[20..] == tail;
  }

  /** A type that is none of the known ones is refused after the first word. */
  lemma UnknownTypeRefused(t: int, rest: seq<byte>, sec: Security)
    requires Int32(t) && !IsValidType(t)
    ensures TakeMessage(ToBytes(t) + rest, sec) == Refused(NetErrData)
  {
    hide ToBytes, Streams.TakeInt, IsValidType;
    TakePutInt(t, rest);
  }

  /** A message whose length is zero or negative has no contents, but its length is kept. */
  lemma NoContents(m: Message, sign: seq<byte>, rest: seq<byte>, sec: Security)
    requires IsValidType(m.typ) && Int32(m.typ) && Int32(m.msgID) && Int32(m.filterID) && Int32(m.group)
    requires Int32(m.len) && m.len <= 0 && m.buf == [] && |sign| <= MAX_NETWORK_SIZE && sec.verify(m, sign)
    ensures TakeMessage(ToBytes(m.typ) + (ToBytes(m.msgID) + (ToBytes(m.filterID) + (ToBytes(m.group) + (ToBytes(m.len)
                        + (PutVector(sign) + rest))))), sec)
            == Got(m, rest)
  {
    hide ToBytes, Streams.TakeInt, TakeVector, PutVector, IsValidType;
    var s5 := PutVector(sign) + rest;
    var s4 := ToBytes(m.len) + s5;
    var s3 := ToBytes(m.group) + s4;
    var s2 := ToBytes(m.filterID) + s3;
    var s1 := ToBytes(m.msgID) + s2;
    TakePutInt(m.typ, s1);
    TakePutInt(m.msgID, s2);
    TakePutInt(m.filterID, s3);
    TakePutInt(m.group, s4);
    TakePutInt(m.len, s5);
    assert s5[..0] == [] && s5[0..] == s5;
    TakePutVector(sign, rest);
  }

  // ----- tables -----

  lemma {:induction false} IntsLayout(q: seq<int>, i: nat)
    requires AllInt32(q) && i < |q|
    ensures WordAt(IntsToBytes(q), i, q[i])
    decreases i
  {
    hide ToBytes, BigEndian;
    if i == 0 {
      WordBetween([], q[0], IntsToBytes(q[1..]), 0);
      assert [] + ToBytes(q[0]) + IntsToBytes(q[1..]) == IntsToBytes(q);
    } else {
      IntsLayout(q[1..], i - 1);
      assert IntsToBytes(q)[4 * i..4 * i + 4] == IntsToBytes(q[1..])[4 * (i - 1)..4 * (i - 1) + 4];
    }
  }

  /** A slice: its successor, how many back ends follow, and these in ascending order. */
  lemma SliceLayout(c: int, r: seq<Range>)
    requires Canonical(r)
    ensures var q := SliceInts(c, r);
            && q[0] == c && q[1] == |Members(r)| && |q| == 2 + |Members(r)|
            && Ascending(q[2..]) && Elements(q[2..]) == Members(r)
  {
    ListingIsEnumeration(r);
    EnumerateAscends(Members(r));
    EnumerateLength(Members(r));
    assert SliceInts(c, r)[2..] == Listing(r);
  }

  const SMALL: RawSlices := map[-2 := [Range(1, 2)]]
  const LARGE: RawSlices := map[-2 := [Range(0, 2)], -5 := [Range(3, 4)]]
  const BOTH: RawGroups := map[-1 := LARGE, -9 := SMALL]

  /** A table with two groups, written out: parent, groups, and for each its successors, all in ascending order. */
  lemma TableExample()
    ensures TableInts(7, BOTH) == [7, 2, -9, 1, -2, 1, 1, -1, 2, -5, 1, 3, -2, 2, 0, 1]
  {
    hide GroupInts, GroupsInts, Enumerate;
    assert BOTH.Keys == {-9, -1} && |BOTH| == |BOTH.Keys| == 2;
    InOrder({-9, -1}, [-9, -1]);
    TwoGroups();
    SmallGroup();
    LargeGroup();
  }

  lemma TwoGroups()
    ensures GroupsInts([-9, -1], BOTH) == GroupInts(-9, SMALL) + GroupInts(-1, LARGE)
  {
    hide GroupInts;
    assert [-9, -1][1..] == [-1] && [-1][1..] == [];
    assert GroupsInts([-1], BOTH) == GroupInts(-1, LARGE) + [];
  }

  lemma SmallGroup()
    ensures GroupInts(-9, SMALL) == [-9, 1, -2, 1, 1]
  {
    hide Enumerate, Listing, Span;
    assert SMALL.Keys == {-2} && |SMALL| == |SMALL.Keys| == 1;
    InOrder({-2}, [-2]);
    OneRange(1, 2);
    SmallSpans();
    assert [-2][1..] == [];
    assert SlicesInts([-2], SMALL) == SliceInts(-2, SMALL[-2]) + [];
  }

  lemma LargeGroup()
    ensures GroupInts(-1, LARGE) == [-1, 2, -5, 1, 3, -2, 2, 0, 1]
  {
    hide Enumerate, Listing, Span;
    assert LARGE.Keys == {-5, -2} && |LARGE| == |LARGE.Keys| == 2;
    InOrder({-5, -2}, [-5, -2]);
    OneRange(0, 2);
    OneRange(3, 4);
    SmallSpans();
    assert [-5, -2][1..] == [-2] && [-2][1..] == [];
    assert SlicesInts([-2], LARGE) == SliceInts(-2, LARGE[-2]) + [];
    assert SlicesInts([-5, -2], LARGE) == SliceInts(-5, LARGE[-5]) + SlicesInts([-2], LARGE);
  }

  lemma SmallSpans()
    ensures Span(1, 2) == [1] && Span(0, 2) == [0, 1] && Span(3, 4) == [3]
  {
  }

  lemma InOrder(s: set<int>, q: seq<int>)
    requires Ascending(q) && Elements(q) == s
    ensures Enumerate(s) == q
  {
    EnumerateAscends(s);
    AscendingUnique(Enumerate(s), q);
  }

  lemma OneRange(lo: int, hi: int)
    ensures Listing([Range(lo, hi)]) == Span(lo, hi)
  {
    assert [Range(lo, hi)][1..] == [];
    assert Span(lo, hi) + [] == Span(lo, hi);
  }
}
