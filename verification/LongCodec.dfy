/** The wire form of a C++ `long`: three integers, split and joined by shifts of `sizeof(int)` bits, that is of 4. */
module LongCodec {
  import opened Packing

  /** The values of a 64-bit `long`. */
  predicate Int64(v: int) {
    -0x8000_0000_0000_0000 <= v < 0x8000_0000_0000_0000
  }

  /** Conversion to `int` keeps the low 32 bits. */
  function Wrap32(v: int): (r: int)
    ensures Int32(r) && (r - v) % 0x1_0000_0000 == 0
  {
    var u := v % 0x1_0000_0000;
    if u < 0x8000_0000 then u else u - 0x1_0000_0000
  }

  function Wrap64(v: int): (r: int)
    ensures Int64(r) && (r - v) % 0x1_0000_0000_0000_0000 == 0
  {
    var u := v % 0x1_0000_0000_0000_0000;
    if u < 0x8000_0000_0000_0000 then u else u - 0x1_0000_0000_0000_0000
  }

  /** Bitwise or of two non-negative numbers. */
  function Or(a: nat, b: nat): nat
    decreases a + b
  {
    if a == 0 && b == 0 then 0
    else 2 * Or(a / 2, b / 2) + if a % 2 == 1 || b % 2 == 1 then 1 else 0
  }

  /** The 32 bits of an `int` read as unsigned. */
  function Unsigned32(v: int): nat {
    v % 0x1_0000_0000
  }

  /** Shift left by four, keeping 64 bits, then arithmetic shift right by four. */
  function LowPart(v: int): (low: int)
    ensures Int32(low)
  {
    Wrap32(Wrap64(v * 16) / 16)
  }

  function HighPart(v: int): (high: int)
    ensures Int32(high)
  {
    Wrap32(v / 16)
  }

  /** Both operands are `int`, so the shift and the or are 32 bits wide and the result is sign-extended. */
  function Join(high: int, low: int): int {
    Wrap32(Or(Unsigned32(Wrap32(high * 16)), Unsigned32(low)))
  }

  lemma {:induction false} OrSelf(k: nat)
    ensures Or(k, k) == k
  {
    if k != 0 { OrSelf(k / 2); }
  }

  lemma OrClearLowNibble(x: nat)
    ensures Or(x - x % 16, x) == x
  {
    var k := x / 16;
    OrSelf(k);
    assert Or(2 * k, x / 8) == x / 8 by { assert x / 8 / 2 == k && 2 * k / 2 == k; }
    assert Or(4 * k, x / 4) == x / 4 by { assert x / 4 / 2 == x / 8 && 4 * k / 2 == 2 * k; }
    assert Or(8 * k, x / 2) == x / 2 by { assert x / 2 / 2 == x / 4 && 8 * k / 2 == 4 * k; }
    assert Or(16 * k, x) == x by { assert 16 * k / 2 == 8 * k; }
  }

  /** Two numbers that differ by a multiple of 2^32 convert to the same `int`. */
  lemma SameWrap(a: int, b: int, k: int)
    requires a == b + 0x1_0000_0000 * k
    ensures Wrap32(a) == Wrap32(b) && Unsigned32(a) == Unsigned32(b)
  {
  }

  lemma LowPartExact(v: int)
    ensures LowPart(v) == Wrap32(v)
  {
    var w := Wrap64(v * 16);
    var k := (w - v * 16) / 0x1_0000_0000_0000_0000;
    assert w == v * 16 + 0x1_0000_0000_0000_0000 * k;
    assert w / 16 == v + 0x1000_0000_0000_0000 * k;
    SameWrap(w / 16, v, 0x1000_0000 * k);
  }

  lemma HighPartShifted(v: int)
    ensures Unsigned32(Wrap32(HighPart(v) * 16)) == Unsigned32(v) - Unsigned32(v) % 16
  {
    var h := HighPart(v);
    var k := (h - v / 16) / 0x1_0000_0000;
    assert h * 16 == v / 16 * 16 + 0x1_0000_0000 * (16 * k);
    SameWrap(h * 16, v / 16 * 16, 16 * k);
    var s := Wrap32(h * 16);
    SameWrap(s, h * 16, (s - h * 16) / 0x1_0000_0000);
    var u := Unsigned32(v);
    var q := v / 0x1_0000_0000;
    assert v == u + 0x1_0000_0000 * q;
    assert v / 16 == u / 16 + 0x1000_0000 * q;
    SameWrap(v / 16 * 16, u - u % 16, q);
  }

  /** What comes back is the low 32 bits, sign-extended. */
  lemma JoinSplit(v: int)
    ensures Join(HighPart(v), LowPart(v)) == Wrap32(v)
  {
    LowPartExact(v);
    HighPartShifted(v);
    var w := Wrap32(v);
    SameWrap(w, v, (w - v) / 0x1_0000_0000);
    OrClearLowNibble(Unsigned32(v));
    SameWrap(Unsigned32(v), v, -(v / 0x1_0000_0000));
  }

  /** A `long` survives the wire exactly when it fits in 32 signed bits. */
  lemma LongRoundTripIff(v: int)
    ensures Join(HighPart(v), LowPart(v)) == v <==> Int32(v)
  {
    hide Join, HighPart, LowPart;
    JoinSplit(v);
    assert Int32(v) ==> Wrap32(v) == v;
  }
}
