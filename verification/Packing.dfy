/** Network byte order and the growable pack buffer. */
module Packing {

  type byte = x: int | 0 <= x < 256

  /** The values of a C++ `int`. */
  predicate Int32(v: int) {
    -0x8000_0000 <= v < 0x8000_0000
  }

  /** Four bytes, most significant first: `htonl` followed by a raw copy. */
  function ToBytes(v: int): (b: seq<byte>)
    requires Int32(v)
    ensures |b| == 4
  {
    var u := if v < 0 then v + 0x1_0000_0000 else v;
    [u / 0x100_0000, u / 0x1_0000 % 0x100, u / 0x100 % 0x100, u % 0x100]
  }

  function FromBytes(b: seq<byte>): (v: int)
    requires |b| == 4
    ensures Int32(v)
  {
    var u := (b[0] as int) * 0x100_0000 + (b[1] as int) * 0x1_0000 + (b[2] as int) * 0x100 + b[3] as int;
    if u < 0x8000_0000 then u else u - 0x1_0000_0000
  }

  lemma IntRoundTrip(v: int)
    requires Int32(v)
    ensures FromBytes(ToBytes(v)) == v
  {
    var u := if v < 0 then v + 0x1_0000_0000 else v;
    assert u / 0x100 / 0x100 == u / 0x1_0000 && u / 0x1_0000 / 0x100 == u / 0x100_0000;
  }

  lemma BytesRoundTrip(b: seq<byte>)
    requires |b| == 4
    ensures ToBytes(FromBytes(b)) == b
  {
    Digits(b[0], b[1], b[2], b[3]);
  }

  lemma Digits(a: byte, b: byte, c: byte, d: byte)
    ensures var u := (a as int) * 0x100_0000 + (b as int) * 0x1_0000 + (c as int) * 0x100 + d as int;
            && u / 0x100_0000 == a && u / 0x1_0000 % 0x100 == b && u / 0x100 % 0x100 == c && u % 0x100 == d
            && 0 <= u < 0x1_0000_0000
  {
    var u := (a as int) * 0x100_0000 + (b as int) * 0x1_0000 + (c as int) * 0x100 + d as int;
    assert u / 0x100 == (a as int) * 0x1_0000 + (b as int) * 0x100 + c as int;
    assert u / 0x1_0000 == (a as int) * 0x100 + b as int;
  }

  ghost predicate AllInt32(q: seq<int>) {
    forall i :: 0 <= i < |q| ==> Int32(q[i])
  }

  function IntsToBytes(q: seq<int>): (b: seq<byte>)
    requires AllInt32(q)
    ensures |b| == 4 * |q|
  {
    if q == [] then [] else ToBytes(q[0]) + IntsToBytes(q[1..])
  }

  lemma {:induction false} IntsToBytesConcat(p: seq<int>, q: seq<int>)
    requires AllInt32(p) && AllInt32(q)
    ensures AllInt32(p + q) && IntsToBytes(p + q) == IntsToBytes(p) + IntsToBytes(q)
  {
    if p == [] {
      assert p + q == q;
    } else {
      assert AllInt32(p[1..]);
      IntsToBytesConcat(p[1..], q);
      assert (p + q)[1..] == p[1..] + q;
    }
  }

  const PACK_SIZE: nat := 256

  /** A buffer that doubles until the next item fits. */
  class Packer {
    var msgBuf: array<byte>
    var msgPtr: nat
    var msgLen: nat
    var bufSize: nat

    ghost predicate Valid()
      reads this
    {
      msgPtr == msgLen <= bufSize == msgBuf.Length && bufSize > 0
    }

    /** Everything packed so far. */
    ghost function Packed(): seq<byte>
      requires Valid()
      reads this, msgBuf
    {
      msgBuf[..msgLen]
    }

    constructor ()
      ensures Valid() && fresh(msgBuf) && Packed() == []
    {
      msgLen, bufSize, msgPtr := 0, PACK_SIZE, 0;
      msgBuf := new byte[PACK_SIZE];
    }

    /** Make room, keeping what is packed. */
    method CheckBuffer(size: nat)
      requires Valid()
      modifies this
      ensures Valid() && msgLen == old(msgLen) && Packed() == old(Packed())
      ensures msgLen + size <= bufSize
      ensures msgBuf == old(msgBuf) || fresh(msgBuf)
    {
      var len := msgLen + size;
      if len <= bufSize {
        return;
      }
      var bigger := bufSize;
      while bigger < len
        invariant 0 < bigger && bufSize <= bigger
        decreases len - bigger
      {
        bigger := bigger * 2;
      }
      var tmp := new byte[bigger];
      forall i | 0 <= i < msgLen {
        tmp[i] := msgBuf[i];
      }
      msgBuf, bufSize := tmp, bigger;
    }

    method PackBytes(data: seq<byte>)
      requires Valid()
      modifies this, msgBuf
      ensures Valid() && Packed() == old(Packed()) + data
      ensures msgBuf == old(msgBuf) || fresh(msgBuf)
    {
      CheckBuffer(|data|);
      var start := msgPtr;
      ghost var before := Packed();
      forall i | 0 <= i < |data| {
        msgBuf[start + i] := data[i];
      }
      msgPtr, msgLen := msgPtr + |data|, msgLen + |data|;
      assert msgBuf[..msgLen] == before + data;
    }

    method PackInt(value: int)
      requires Valid() && Int32(value)
      modifies this, msgBuf
      ensures Valid() && Packed() == old(Packed()) + ToBytes(value)
      ensures msgBuf == old(msgBuf) || fresh(msgBuf)
    {
      PackBytes(ToBytes(value));
    }
  }

  /** A packer that has packed exactly the integers `out`. */
  ghost predicate Holds(p: Packer, out: seq<int>)
    reads p, p.msgBuf
  {
    p.Valid() && AllInt32(out) && p.Packed() == IntsToBytes(out)
  }

  lemma IntsToBytesSnoc(out: seq<int>, value: int)
    requires AllInt32(out) && Int32(value)
    ensures AllInt32(out + [value]) && IntsToBytes(out + [value]) == IntsToBytes(out) + ToBytes(value)
  {
    IntsToBytesConcat(out, [value]);
    assert IntsToBytes([value]) == ToBytes(value) + IntsToBytes([value][1..]);
  }

  method PackNext(p: Packer, value: int, ghost out: seq<int>)
    requires Holds(p, out) && Int32(value)
    modifies p, p.msgBuf
    ensures Holds(p, out + [value])
    ensures p.msgBuf == old(p.msgBuf) || fresh(p.msgBuf)
  {
    IntsToBytesSnoc(out, value);
    p.PackInt(value);
  }

  /** The same class over a received buffer, where only the read position moves. */
  class Unpacker {
    const msgBuf: seq<byte>
    var msgPtr: nat

    ghost predicate Valid()
      reads this
    {
      msgPtr <= |msgBuf|
    }

    ghost function Rest(): seq<byte>
      requires Valid()
      reads this
    {
      msgBuf[msgPtr..]
    }

    constructor (msg: seq<byte>)
      ensures Valid() && Rest() == msg
    {
      msgBuf, msgPtr := msg, 0;
    }

    /** The next four bytes as an integer; nothing checks that there are four. */
    method UnpackInt() returns (value: int)
      requires Valid() && |Rest()| >= 4
      modifies this
      ensures Valid() && value == FromBytes(old(Rest())[..4]) && Rest() == old(Rest())[4..]
    {
      value := FromBytes(msgBuf[msgPtr..msgPtr + 4]);
      assert msgBuf[msgPtr..msgPtr + 4] == msgBuf[msgPtr..][..4];
      msgPtr := msgPtr + 4;
    }

    /** Reading from a buffer known to start with packed integers. */
    method UnpackNext(ghost ints: seq<int>, ghost tail: seq<byte>) returns (value: int)
      requires AllInt32(ints) && ints != []
      requires Valid() && Rest() == IntsToBytes(ints) + tail
      modifies this
      ensures value == ints[0] && AllInt32(ints[1..])
      ensures Valid() && Rest() == IntsToBytes(ints[1..]) + tail
    {
      ghost var rest := IntsToBytes(ints[1..]);
      assert Rest()[..4] == ToBytes(ints[0]) && Rest()[4..] == rest + tail;
      value := UnpackInt();
      IntRoundTrip(ints[0]);
    }
  }
}
