/** The buffered stream over a socket. */
module Streams {
  import opened Packing
  import opened LongCodec

  const BUFFER_SIZE: nat := 16384
  const MAX_NETWORK_SIZE: nat := 0x80_0000

  function Flat(q: seq<seq<byte>>): seq<byte> {
    if q == [] then [] else q[0] + Flat(q[1..])
  }

  lemma {:induction false} FlatConcat(p: seq<seq<byte>>, q: seq<seq<byte>>)
    ensures Flat(p + q) == Flat(p) + Flat(q)
  {
    if p == [] {
      assert p + q == q;
    } else {
      FlatConcat(p[1..], q);
      assert (p + q)[1..] == p[1..] + q;
      Regroup(p[0], Flat(p[1..]), Flat(q));
    }
  }

  lemma FlatOne(b: seq<byte>)
    ensures Flat([b]) == b
  {
    assert [b][1..] == [];
  }

  lemma FlatNext(q: seq<seq<byte>>, i: nat)
    requires i < |q|
    ensures Flat(q[..i + 1]) == Flat(q[..i]) + q[i]
  {
    FlatConcat(q[..i], [q[i]]);
    assert q[..i + 1] == q[..i] + [q[i]];
    FlatOne(q[i]);
  }

  lemma SliceOfSlice(b: seq<byte>, s: nat, e: nat, lo: nat, hi: nat)
    requires s <= lo <= hi <= e <= |b|
    ensures b[s..e][lo - s..hi - s] == b[lo..hi]
  {
    forall i | 0 <= i < hi - lo
      ensures b[s..e][lo - s..hi - s][i] == b[lo..hi][i]
    {
    }
  }

  // ----- what a reader makes of the bytes that will ever arrive -----

  datatype Error = NetErrClosed | NetErrRecv | NetErrData | InvalidSignature

  /** A value and what follows it, or too few bytes, or bytes that are refused. */
  datatype Parsed<T> = Got(value: T, rest: seq<byte>) | Short | Refused(error: Error)

  datatype Outcome<T> = Ok(value: T) | Thrown(error: Error)

  /**
   * A read that returned or threw as `p` says, leaving `unread` behind when it returned. `ending` is how the
   * connection ends.
   */
  predicate Agrees<T(==)>(r: Outcome<T>, unread: seq<byte>, p: Parsed<T>, ending: Error) {
    match p
    case Got(v, rest) => r == Ok(v) && unread == rest
    case Short => r == Thrown(ending)
    case Refused(e) => r == Thrown(e)
  }

  function TakeBytes(s: seq<byte>, n: nat): Parsed<seq<byte>> {
    if n <= |s| then Got(s[..n], s[n..]) else Short
  }

  function TakeInt(s: seq<byte>): Parsed<int> {
    if 4 <= |s| then Got(FromBytes(s[..4]), s[4..]) else Short
  }

  function TakeLong(s: seq<byte>): Parsed<int> {
    match TakeInt(s)
    case Short => Short
    case Refused(e) => Refused(e)
    case Got(width, s1) =>
      match TakeInt(s1)
      case Short => Short
      case Refused(e) => Refused(e)
      case Got(low, s2) =>
        if width == 4 then Got(Join(0, low), s2)
        else match TakeInt(s2)
             case Short => Short
             case Refused(e) => Refused(e)
             case Got(high, s3) => Got(Join(high, low), s3)
  }

  /** The length is compared as unsigned, so a negative one is too large. */
  function TakeVector(s: seq<byte>): Parsed<seq<byte>> {
    match TakeLong(s)
    case Short => Short
    case Refused(e) => Refused(e)
    case Got(len, s1) =>
      if len < 0 || len > MAX_NETWORK_SIZE then Refused(NetErrData) else TakeBytes(s1, len)
  }

  /** The bytes before the first NUL. */
  function CString(s: seq<byte>): (r: seq<byte>)
    ensures |r| <= |s| && r <= s
  {
    if s == [] || s[0] == 0 then [] else [s[0]] + CString(s[1..])
  }

  function TakeString(s: seq<byte>): Parsed<seq<byte>> {
    match TakeInt(s)
    case Short => Short
    case Refused(e) => Refused(e)
    case Got(len, s1) =>
      if len < 0 || len > MAX_NETWORK_SIZE then Refused(NetErrData)
      else match TakeBytes(s1, len)
           case Short => Short
           case Refused(e) => Refused(e)
           case Got(data, s2) => Got(CString(data), s2)
  }

  // ----- what a writer puts on the wire -----

  function PutLong(v: int): seq<byte> {
    ToBytes(8) + ToBytes(LowPart(v)) + ToBytes(HighPart(v))
  }

  function PutVector(data: seq<byte>): seq<byte> {
    PutLong(|data|) + data
  }

  function PutString(s: seq<byte>): seq<byte>
    requires |s| < 0x7fff_ffff
  {
    ToBytes(|CString(s)| + 1) + CString(s) + [0]
  }

  lemma TakePutInt(v: int, rest: seq<byte>)
    requires Int32(v)
    ensures TakeInt(ToBytes(v) + rest) == Got(v, rest)
  {
    hide ToBytes, FromBytes;
    IntRoundTrip(v);
    assert (ToBytes(v) + rest)[..4] == ToBytes(v) && (ToBytes(v) + rest)[4..] == rest;
  }

  lemma TakePutLong(v: int, rest: seq<byte>)
    ensures TakeLong(PutLong(v) + rest) == Got(Wrap32(v), rest)
  {
    hide TakeInt, ToBytes, Join, LowPart, HighPart, Wrap32;
    var low, high := LowPart(v), HighPart(v);
    var s3 := ToBytes(high) + rest;
    var s2 := ToBytes(low) + s3;
    assert PutLong(v) + rest == ToBytes(8) + s2;
    TakePutInt(8, s2);
    TakePutInt(low, s3);
    TakePutInt(high, rest);
    JoinSplit(v);
  }

  /** A byte vector is read back exactly when it is no longer than the limit. */
  lemma TakePutVector(data: seq<byte>, rest: seq<byte>)
    requires |data| < 0x8000_0000
    ensures TakeVector(PutVector(data) + rest)
            == if |data| <= MAX_NETWORK_SIZE then Got(data, rest) else Refused(NetErrData)
  {
    hide PutLong, TakeLong;
    assert PutVector(data) + rest == PutLong(|data|) + (data + rest);
    TakePutLong(|data|, data + rest);
    assert Wrap32(|data|) == |data|;
    assert (data + rest)[..|data|] == data && (data + rest)[|data|..] == rest;
  }

  lemma {:induction false} CStringClosed(s: seq<byte>)
    ensures CString(CString(s) + [0]) == CString(s)
  {
    if s != [] && s[0] != 0 {
      CStringClosed(s[1..]);
      assert (CString(s) + [0])[1..] == CString(s[1..]) + [0];
    }
  }

  /** A string comes back cut at its first NUL. */
  lemma TakePutString(s: seq<byte>, rest: seq<byte>)
    requires |s| < 0x7fff_ffff
    ensures TakeString(PutString(s) + rest)
            == if |CString(s)| < MAX_NETWORK_SIZE then Got(CString(s), rest) else Refused(NetErrData)
  {
    hide CString, ToBytes, TakeInt;
    var data := CString(s) + [0];
    assert PutString(s) + rest == ToBytes(|data|) + (data + rest);
    TakePutInt(|data|, data + rest);
    assert (data + rest)[..|data|] == data && (data + rest)[|data|..] == rest;
    CStringClosed(s);
  }

  // ----- the socket -----

  /** What has been handed to the network, and what the network will hand over, in pieces of any size. An
      empty piece is a moment when nothing has arrived yet. */
  class Socket {
    var sent: seq<byte>
    var arrivals: seq<seq<byte>>
    const closes: bool

    constructor (pieces: seq<seq<byte>>, ends: bool)
      ensures sent == [] && arrivals == pieces && closes == ends
    {
      sent, arrivals, closes := [], pieces, ends;
    }

    /** How the connection ends once everything has arrived: closed by the peer, or broken. */
    function Ending(): Error {
      if closes then NetErrClosed else NetErrRecv
    }

    /** All of the data, or a part from its beginning when sending fails. */
    method Send(data: seq<byte>) returns (ok: bool)
      modifies this`sent
      ensures ok ==> sent == old(sent) + data
      ensures old(sent) <= sent <= old(sent) + data
    {
      var pos := 0;
      while pos < |data|
        invariant pos <= |data| && sent == old(sent) + data[..pos]
      {
        if * {
          return false;
        }
        var n :| 0 < n <= |data| - pos;
        assert data[..pos + n] == data[..pos] + data[pos..pos + n];
        sent := sent + data[pos..pos + n];
        pos := pos + n;
      }
      assert data[..pos] == data;
      return true;
    }

    /** Up to `len` bytes: fewer when nothing more has arrived yet, none at all when the connection has ended. */
    method Recv(len: nat) returns (r: Outcome<seq<byte>>)
      modifies this`arrivals
      ensures r.Ok? ==> |r.value| <= len && old(Flat(arrivals)) == r.value + Flat(arrivals)
      ensures r.Ok? && |r.value| < len ==> |arrivals| < |old(arrivals)|
      ensures r.Ok? ==> |arrivals| <= |old(arrivals)|
      ensures r.Thrown? ==> r.error == Ending() && |old(Flat(arrivals))| < len
    {
      hide Flat;
      var got := [];
      assert got + Flat(arrivals) == Flat(arrivals);
      while |got| < len
        invariant |got| <= len && old(Flat(arrivals)) == got + Flat(arrivals)
        invariant |arrivals| <= |old(arrivals)|
        decreases |arrivals|, len - |got|
      {
        if arrivals == [] {
          FlatEmpty();
          return Thrown(Ending());
        }
        FlatFirst(arrivals);
        if arrivals[0] == [] {
          arrivals := arrivals[1..];
          return Ok(got);
        }
        var before := got;
        if |arrivals[0]| <= len - |got| {
          Regroup(before, arrivals[0], Flat(arrivals[1..]));
          got := got + arrivals[0];
          arrivals := arrivals[1..];
        } else {
          var n := len - |got|;
          FlatSplit(arrivals, n);
          Regroup(before, arrivals[0][..n], Flat(arrivals[0 := arrivals[0][n..]]));
          got := got + arrivals[0][..n];
          arrivals := arrivals[0 := arrivals[0][n..]];
        }
      }
      return Ok(got);
    }
  }

  lemma FlatEmpty()
    ensures Flat([]) == []
  {
  }

  lemma FlatFirst(q: seq<seq<byte>>)
    requires q != []
    ensures Flat(q) == q[0] + Flat(q[1..])
    ensures q[0] == [] ==> Flat(q) == Flat(q[1..])
  {
  }

  lemma FlatSplit(q: seq<seq<byte>>, n: nat)
    requires q != [] && n <= |q[0]|
    ensures Flat(q) == q[0][..n] + Flat(q[0 := q[0][n..]])
  {
    var q' := q[0 := q[0][n..]];
    assert q'[1..] == q[1..];
    assert q[0] == q[0][..n] + q[0][n..];
    Regroup(q[0][..n], q[0][n..], Flat(q[1..]));
  }

  lemma PrefixTrans(a: seq<byte>, b: seq<byte>, c: seq<byte>)
    ensures a <= b ==> a <= b + c
  {
  }

  lemma Regroup(a: seq<byte>, b: seq<byte>, c: seq<byte>)
    ensures a + (b + c) == (a + b) + c
  {
  }

  // ----- the stream -----

  class Stream {
    const socket: Socket
    const buffer: array<byte>
    var cursor: nat

    ghost predicate Valid()
      reads this
    {
      cursor <= buffer.Length == BUFFER_SIZE
    }

    /** Everything written so far: what was sent and what is still buffered. */
    ghost function Written(): seq<byte>
      requires Valid()
      reads this, socket, buffer
    {
      socket.sent + buffer[..cursor]
    }

    /** Everything that can still be read. */
    ghost function Unread(): seq<byte>
      reads this, socket
    {
      Flat(socket.arrivals)
    }

    constructor (s: Socket)
      ensures Valid() && socket == s && fresh(buffer) && Written() == s.sent && Unread() == Flat(s.arrivals)
    {
      socket := s;
      buffer := new byte[BUFFER_SIZE];
      cursor := 0;
      new;
      assert Written() == s.sent;
    }

    /** Everything written is sent; if that fails the rest of the buffer is given up. */
    method Flush() returns (ok: bool)
      requires Valid()
      modifies this`cursor, socket`sent
      ensures Valid() && cursor == 0 && Written() == socket.sent
      ensures ok ==> Written() == old(Written())
      ensures old(socket.sent) <= socket.sent <= old(Written())
    {
      ok := socket.Send(buffer[..cursor]);
      cursor := 0;
      assert socket.sent + buffer[..0] == socket.sent;
    }

    method CheckBuffer(size: nat) returns (ok: bool)
      requires Valid()
      modifies this`cursor, socket`sent
      ensures Valid() && (ok ==> Written() == old(Written()))
      ensures ok ==> cursor == 0 || cursor + size < BUFFER_SIZE
      ensures old(socket.sent) <= socket.sent <= old(Written())
    {
      ok := true;
      if cursor + size >= BUFFER_SIZE {
        ok := Flush();
      }
    }

    /** Copy into the buffer, where it must fit. */
    method Append(data: seq<byte>)
      requires Valid() && cursor + |data| <= BUFFER_SIZE
      modifies this`cursor, buffer
      ensures Valid() && Written() == old(Written()) + data
    {
      ghost var before := buffer[..cursor];
      var start := cursor;
      forall i | 0 <= i < |data| {
        buffer[start + i] := data[i];
      }
      cursor := cursor + |data|;
      assert buffer[..cursor] == before + data;
      Regroup(socket.sent, before, data);
    }

    /** A block of any size goes out through the buffer; when sending fails, what was sent is still in order. */
    method Write(data: seq<byte>) returns (ok: bool)
      requires Valid()
      modifies this`cursor, buffer, socket`sent
      ensures Valid() && (ok ==> Written() == old(Written()) + data)
      ensures old(socket.sent) <= socket.sent <= old(Written()) + data
    {
      var pos := 0;
      assert old(Written()) + data[..0] == old(Written());
      while pos < |data|
        invariant pos <= |data| && Valid() && Written() == old(Written()) + data[..pos]
        invariant old(socket.sent) <= socket.sent
      {
        Regroup(old(Written()), data[..pos], data[pos..]);
        assert data == data[..pos] + data[pos..];
        PrefixTrans(socket.sent, Written(), data[pos..]);
        ok := CheckBuffer(|data| - pos);
        if !ok {
          PrefixTrans(socket.sent, old(Written()) + data[..pos], data[pos..]);
          return;
        }
        var count := if |data| - pos - BUFFER_SIZE > 0 then BUFFER_SIZE else |data| - pos;
        Append(data[pos..pos + count]);
        Regroup(old(Written()), data[..pos], data[pos..pos + count]);
        assert data[..pos + count] == data[..pos] + data[pos..pos + count];
        pos := pos + count;
      }
      assert data[..pos] == data;
      return true;
    }

    method WriteInt(v: int) returns (ok: bool)
      requires Valid() && Int32(v)
      modifies this`cursor, buffer, socket`sent
      ensures Valid() && (ok ==> Written() == old(Written()) + ToBytes(v))
      ensures old(socket.sent) <= socket.sent <= old(Written()) + ToBytes(v)
    {
      hide ToBytes;
      ok := CheckBuffer(4);
      PrefixTrans(socket.sent, old(Written()), ToBytes(v));
      if ok {
        Append(ToBytes(v));
      }
    }

    method WriteLong(v: int) returns (ok: bool)
      requires Valid()
      modifies this`cursor, buffer, socket`sent
      ensures Valid() && (ok ==> Written() == old(Written()) + PutLong(v))
      ensures old(socket.sent) <= socket.sent <= old(Written()) + PutLong(v)
    {
      hide ToBytes, LowPart, HighPart;
      ghost var w, low, high := Written(), LowPart(v), HighPart(v);
      Regroup(w, ToBytes(8), ToBytes(low));
      Regroup(w, ToBytes(8) + ToBytes(low), ToBytes(high));
      ok := WriteInt(8);
      PrefixTrans(socket.sent, w + ToBytes(8), ToBytes(low));
      PrefixTrans(socket.sent, w + ToBytes(8) + ToBytes(low), ToBytes(high));
      if ok {
        ok := WriteInt(LowPart(v));
        PrefixTrans(socket.sent, w + ToBytes(8) + ToBytes(low), ToBytes(high));
        if ok {
          ok := WriteInt(HighPart(v));
        }
      }
    }

    method WriteVector(data: seq<byte>) returns (ok: bool)
      requires Valid()
      modifies this`cursor, buffer, socket`sent
      ensures Valid() && (ok ==> Written() == old(Written()) + PutVector(data))
      ensures old(socket.sent) <= socket.sent <= old(Written()) + PutVector(data)
    {
      hide PutLong;
      Regroup(old(Written()), PutLong(|data|), data);
      ok := WriteLong(|data|);
      PrefixTrans(socket.sent, old(Written()) + PutLong(|data|), data);
      if ok {
        ok := Write(data);
      }
    }

    /** A C string: the terminating NUL travels with it. */
    method WriteString(s: seq<byte>) returns (ok: bool)
      requires Valid() && |s| < 0x7fff_ffff
      modifies this`cursor, buffer, socket`sent
      ensures Valid() && (ok ==> Written() == old(Written()) + PutString(s))
      ensures old(socket.sent) <= socket.sent <= old(Written()) + PutString(s)
    {
      hide ToBytes, CString;
      var text := CString(s);
      Regroup(old(Written()), ToBytes(|text| + 1), text + [0]);
      Regroup(ToBytes(|text| + 1), text, [0]);
      ok := WriteInt(|text| + 1);
      PrefixTrans(socket.sent, old(Written()) + ToBytes(|text| + 1), text + [0]);
      if ok {
        ok := Write(text + [0]);
      }
    }

    /** Whatever the pieces, a read gets the next bytes, and it fails exactly when too few will ever come. */
    method Read(size: nat) returns (r: Outcome<seq<byte>>)
      modifies socket`arrivals
      ensures Agrees(r, Unread(), TakeBytes(old(Unread()), size), socket.Ending())
    {
      hide Flat;
      var buf := [];
      assert buf + Unread() == Unread();
      while |buf| < size
        invariant |buf| <= size && old(Unread()) == buf + Unread()
        decreases |socket.arrivals|, size - |buf|
      {
        var piece := socket.Recv(size - |buf|);
        if piece.Thrown? {
          return Thrown(piece.error);
        }
        Regroup(buf, piece.value, Unread());
        buf := buf + piece.value;
      }
      return Ok(buf);
    }

    method ReadInt() returns (r: Outcome<int>)
      modifies socket`arrivals
      ensures Agrees(r, Unread(), TakeInt(old(Unread())), socket.Ending())
    {
      hide Flat, FromBytes;
      var b := Read(4);
      if b.Thrown? {
        return Thrown(b.error);
      }
      return Ok(FromBytes(b.value));
    }

    method ReadLong() returns (r: Outcome<int>)
      modifies socket`arrivals
      ensures Agrees(r, Unread(), TakeLong(old(Unread())), socket.Ending())
    {
      hide Flat, TakeInt, Join;
      var width := ReadInt();
      if width.Thrown? {
        return Thrown(width.error);
      }
      var low := ReadInt();
      if low.Thrown? {
        return Thrown(low.error);
      }
      var high := 0;
      if width.value - 4 != 0 {
        var h := ReadInt();
        if h.Thrown? {
          return Thrown(h.error);
        }
        high := h.value;
      }
      return Ok(Join(high, low.value));
    }

    method ReadVector() returns (r: Outcome<seq<byte>>)
      modifies socket`arrivals
      ensures Agrees(r, Unread(), TakeVector(old(Unread())), socket.Ending())
    {
      hide Flat, TakeLong;
      var len := ReadLong();
      if len.Thrown? {
        return Thrown(len.error);
      }
      if len.value < 0 || len.value > MAX_NETWORK_SIZE {
        return Thrown(NetErrData);
      }
      if len.value > 0 {
        r := Read(len.value);
      } else {
        r := Ok([]);
      }
    }

    method ReadString() returns (r: Outcome<seq<byte>>)
      modifies socket`arrivals
      ensures Agrees(r, Unread(), TakeString(old(Unread())), socket.Ending())
    {
      hide Flat, TakeInt, CString;
      var len := ReadInt();
      if len.Thrown? {
        return Thrown(len.error);
      }
      if len.value < 0 || len.value > MAX_NETWORK_SIZE {
        return Thrown(NetErrData);
      }
      var buf := Read(len.value);
      if buf.Thrown? {
        return Thrown(buf.error);
      }
      return Ok(CString(buf.value));
    }
  }
}
