/** Messages, their wire form, and the cutting of long ones into segments. */
module Messages {
  import opened Arithmetic
  import opened Packing
  import opened Streams

  const UNKNOWN := -1
  const CONFIG := -1001
  const COMMAND := -1002
  const FILTER_LOAD := -1003
  const FILTER_UNLOAD := -1004
  const GROUP_CREATE := -1005
  const GROUP_FREE := -1006
  const GROUP_OPERATE := -1007
  const GROUP_OPERATE_EXT := -1008
  const QUIT := -1009
  const DATA := -1010
  const BE_REMOVE := -1011
  const BE_ADD := -1012
  const FILTER_LIST := -1013
  const RELEASE := -1014
  const UNCLE := -2001
  const UNCLE_LIST := -2002
  const PARENT := -2003
  const ERROR_EVENT := -2004
  const GROUP_MERGE := -2005
  const GROUP_DROP := -2006
  const SHUTDOWN := -3001
  const KILLNODE := -3002
  const INVALID_POLL := -4001
  const SOCKET_BROKEN := -4002
  const ERROR_DATA := -4003
  const ERROR_THREAD := -4004
  const SEGMENT := -5001
  const RESCUE := -6001

  const SCI_FILTER_NULL := -1
  const SCI_JOIN_SEGMENT := -1001

  predicate IsValidType(t: int) {
    t in {UNKNOWN, CONFIG, COMMAND, FILTER_LOAD, FILTER_UNLOAD, GROUP_CREATE, GROUP_FREE, GROUP_OPERATE,
          GROUP_OPERATE_EXT, QUIT, DATA, BE_REMOVE, BE_ADD, FILTER_LIST, RELEASE, UNCLE, UNCLE_LIST, PARENT,
          ERROR_EVENT, GROUP_MERGE, GROUP_DROP, SHUTDOWN, KILLNODE, INVALID_POLL, SOCKET_BROKEN, ERROR_DATA,
          ERROR_THREAD, SEGMENT, RESCUE}
  }

  /** The length is kept apart from the bytes: a received message may carry a negative one and no bytes. */
  datatype Message = Message(typ: int, msgID: int, filterID: int, group: int, len: int, buf: seq<byte>)

  predicate Sendable(m: Message) {
    && IsValidType(m.typ) && Int32(m.typ) && Int32(m.msgID) && Int32(m.filterID) && Int32(m.group)
    && Int32(m.len) && m.len == |m.buf|
  }

  // ----- wire form -----

  /** The security module: how messages are signed and signatures checked. */
  datatype Security = Security(sign: Message -> seq<byte>, verify: (Message, seq<byte>) -> bool)

  /** With no module loaded signatures are empty and nothing is checked. */
  const UNSIGNED := Security(m => [], (m, s) => true)

  /** A module that accepts its own signatures and keeps them within the limit. */
  ghost predicate Trusted(sec: Security) {
    forall m :: sec.verify(m, sec.sign(m)) && |sec.sign(m)| <= MAX_NETWORK_SIZE
  }

  lemma UnsignedTrusted()
    ensures Trusted(UNSIGNED)
  {
  }

  function Header(m: Message): seq<byte>
    requires Sendable(m)
  {
    ToBytes(m.typ) + (ToBytes(m.msgID) + (ToBytes(m.filterID) + (ToBytes(m.group) + ToBytes(m.len))))
  }

  /** Header, contents, signature. */
  function Encode(m: Message, sec: Security): seq<byte>
    requires Sendable(m)
  {
    Header(m) + m.buf + PutVector(sec.sign(m))
  }

  function TakeMessage(s: seq<byte>, sec: Security): Parsed<Message> {
    match TakeInt(s)
    case Short => Short
    case Refused(e) => Refused(e)
    case Got(typ, s1) =>
      if !IsValidType(typ) then Refused(NetErrData)
      else match TakeInt(s1)
           case Short => Short
           case Refused(e) => Refused(e)
           case Got(id, s2) =>
             match TakeInt(s2)
             case Short => Short
             case Refused(e) => Refused(e)
             case Got(filter, s3) =>
               match TakeInt(s3)
               case Short => Short
               case Refused(e) => Refused(e)
               case Got(group, s4) => TakeContent(typ, id, filter, group, s4, sec)
  }

  function TakeContent(typ: int, id: int, filter: int, group: int, s: seq<byte>, sec: Security): Parsed<Message> {
    match TakeInt(s)
    case Short => Short
    case Refused(e) => Refused(e)
    case Got(len, s1) =>
      match TakeBytes(s1, if len > 0 then len else 0)
      case Short => Short
      case Refused(e) => Refused(e)
      case Got(buf, s2) =>
        match TakeVector(s2)
        case Short => Short
        case Refused(e) => Refused(e)
        case Got(sign, s3) =>
          var m := Message(typ, id, filter, group, len, buf);
          if sec.verify(m, sign) then Got(m, s3) else Refused(InvalidSignature)
  }

  /** Every message comes back, under every security module, and nothing after it is touched. */
  lemma MessageRoundTrip(m: Message, rest: seq<byte>, sec: Security)
    requires Sendable(m) && Trusted(sec)
    ensures TakeMessage(Encode(m, sec) + rest, sec) == Got(m, rest)
  {
    hide ToBytes, TakeInt, TakeVector, PutVector, IsValidType;
    var s5 := PutVector(sec.sign(m)) + rest;
    var s4 := ToBytes(m.len) + (m.buf + s5);
    var s3 := ToBytes(m.group) + s4;
    var s2 := ToBytes(m.filterID) + s3;
    var s1 := ToBytes(m.msgID) + s2;
    assert Encode(m, sec) + rest == ToBytes(m.typ) + s1;
    TakePutInt(m.typ, s1);
    TakePutInt(m.msgID, s2);
    TakePutInt(m.filterID, s3);
    TakePutInt(m.group, s4);
    TakePutInt(m.len, m.buf + s5);
    assert (m.buf + s5)[..m.len] == m.buf && (m.buf + s5)[m.len..] == s5;
    TakePutVector(sec.sign(m), rest);
  }

  /** A message whose signature is not accepted is refused, after its last byte has been read. */
  lemma ForgedRefused(m: Message, sign: seq<byte>, rest: seq<byte>, sec: Security)
    requires Sendable(m) && |sign| <= MAX_NETWORK_SIZE && !sec.verify(m, sign)
    ensures TakeMessage(Encode(m, Security(_ => sign, sec.verify)) + rest, sec) == Refused(InvalidSignature)
  {
    hide ToBytes, TakeInt, TakeVector, PutVector, IsValidType;
    var s5 := PutVector(sign) + rest;
    var s4 := ToBytes(m.len) + (m.buf + s5);
    var s3 := ToBytes(m.group) + s4;
    var s2 := ToBytes(m.filterID) + s3;
    var s1 := ToBytes(m.msgID) + s2;
    assert Encode(m, Security(_ => sign, sec.verify)) + rest == ToBytes(m.typ) + s1;
    TakePutInt(m.typ, s1);
    TakePutInt(m.msgID, s2);
    TakePutInt(m.filterID, s3);
    TakePutInt(m.group, s4);
    TakePutInt(m.len, m.buf + s5);
    assert (m.buf + s5)[..m.len] == m.buf && (m.buf + s5)[m.len..] == s5;
    TakePutVector(sign, rest);
  }

  ghost predicate AllSendable(ms: seq<Message>) {
    forall i :: 0 <= i < |ms| ==> Sendable(ms[i])
  }

  function EncodeAll(ms: seq<Message>, sec: Security): seq<byte>
    requires AllSendable(ms)
  {
    if ms == [] then [] else Encode(ms[0], sec) + EncodeAll(ms[1..], sec)
  }

  lemma {:induction false} EncodeAllConcat(ms: seq<Message>, more: seq<Message>, sec: Security)
    requires AllSendable(ms) && AllSendable(more)
    ensures AllSendable(ms + more) && EncodeAll(ms + more, sec) == EncodeAll(ms, sec) + EncodeAll(more, sec)
  {
    hide Sendable, Encode;
    if ms == [] {
      assert ms + more == more;
    } else {
      EncodeAllConcat(ms[1..], more, sec);
      assert (ms + more)[1..] == ms[1..] + more;
      Regroup(Encode(ms[0], sec), EncodeAll(ms[1..], sec), EncodeAll(more, sec));
    }
  }

  method SendHeader(stream: Stream, m: Message) returns (ok: bool)
    requires stream.Valid() && Sendable(m)
    modifies stream`cursor, stream.buffer, stream.socket`sent
    ensures stream.Valid() && (ok ==> stream.Written() == old(stream.Written()) + Header(m))
    ensures old(stream.socket.sent) <= stream.socket.sent <= old(stream.Written()) + Header(m)
  {
    hide ToBytes, IsValidType;
    ghost var w := stream.Written();
    ghost var a, b, c, d, e := ToBytes(m.typ), ToBytes(m.msgID), ToBytes(m.filterID), ToBytes(m.group), ToBytes(m.len);
    RegroupFive(w, a, b, c, d, e);
    ok := stream.WriteInt(m.typ);
    PrefixesOfFive(stream.socket.sent, w, a, b, c, d, e);
    if ok {
      ok := stream.WriteInt(m.msgID);
      PrefixesOfFive(stream.socket.sent, w, a, b, c, d, e);
      if ok {
        ok := stream.WriteInt(m.filterID);
        PrefixesOfFive(stream.socket.sent, w, a, b, c, d, e);
        if ok {
          ok := stream.WriteInt(m.group);
          PrefixesOfFive(stream.socket.sent, w, a, b, c, d, e);
          if ok {
            ok := stream.WriteInt(m.len);
          }
        }
      }
    }
  }

  lemma PrefixesOfFive(s: seq<byte>, w: seq<byte>, a: seq<byte>, b: seq<byte>, c: seq<byte>, d: seq<byte>, e: seq<byte>)
    ensures s <= w + a || s <= w + a + b || s <= w + a + b + c || s <= w + a + b + c + d ==> s <= w + a + b + c + d + e
  {
    PrefixTrans(s, w + a, b);
    PrefixTrans(s, w + a + b, c);
    PrefixTrans(s, w + a + b + c, d);
    PrefixTrans(s, w + a + b + c + d, e);
  }

  lemma RegroupFive(w: seq<byte>, a: seq<byte>, b: seq<byte>, c: seq<byte>, d: seq<byte>, e: seq<byte>)
    ensures w + a + b + c + d + e == w + (a + (b + (c + (d + e))))
  {
    Regroup(w + a + b + c, d, e);
    Regroup(w + a + b, c, d + e);
    Regroup(w + a, b, c + (d + e));
    Regroup(w, a, b + (c + (d + e)));
  }

  /** All of the encoding is sent; if that fails, what was sent is the beginning of it. */
  method SendMessage(stream: Stream, m: Message, sec: Security) returns (ok: bool)
    requires stream.Valid() && Sendable(m)
    modifies stream`cursor, stream.buffer, stream.socket`sent
    ensures stream.Valid()
    ensures ok ==>
              && stream.cursor == 0
              && stream.socket.sent == stream.Written() == old(stream.Written()) + Encode(m, sec)
    ensures old(stream.socket.sent) <= stream.socket.sent <= old(stream.Written()) + Encode(m, sec)
  {
    hide Header, PutVector, IsValidType;
    var sign := sec.sign(m);
    ghost var w, h, s := stream.Written(), Header(m), PutVector(sign);
    Regroup(w, h, m.buf);
    Regroup(w, h + m.buf, s);
    ok := SendHeader(stream, m);
    PrefixTrans(stream.socket.sent, w + h, m.buf);
    PrefixTrans(stream.socket.sent, w + h + m.buf, s);
    if !ok {
      return;
    }
    if m.len > 0 {
      ok := stream.Write(m.buf);
      PrefixTrans(stream.socket.sent, w + h + m.buf, s);
      if !ok {
        return;
      }
    }
    assert stream.Written() == w + h + m.buf;
    ok := stream.WriteVector(sign);
    if ok {
      ok := stream.Flush();
    }
  }

  /** A list of messages goes out in order, up to the first failure. */
  method SendAll(stream: Stream, ms: seq<Message>, sec: Security) returns (ok: bool)
    requires stream.Valid() && AllSendable(ms)
    modifies stream`cursor, stream.buffer, stream.socket`sent
    ensures stream.Valid() && (ok ==> stream.Written() == old(stream.Written()) + EncodeAll(ms, sec))
    ensures ok && ms != [] ==> stream.socket.sent == stream.Written()
    ensures old(stream.socket.sent) <= stream.socket.sent <= old(stream.Written()) + EncodeAll(ms, sec)
  {
    hide Sendable, Encode, EncodeAll;
    ghost var w := stream.Written();
    EncodeNone(ms[..0], sec);
    assert w + [] == w;
    ok := true;
    for i := 0 to |ms|
      invariant ok && stream.Valid() && stream.Written() == w + EncodeAll(ms[..i], sec)
      invariant old(stream.socket.sent) <= stream.socket.sent
      invariant i > 0 ==> stream.socket.sent == stream.Written()
    {
      ok := SendMessage(stream, ms[i], sec);
      EncodeUpTo(ms, i, sec);
      Regroup(w, EncodeAll(ms[..i], sec), Encode(ms[i], sec));
      if !ok {
        Regroup(w, EncodeAll(ms[..i + 1], sec), EncodeAll(ms[i + 1..], sec));
        PrefixTrans(stream.socket.sent, w + EncodeAll(ms[..i + 1], sec), EncodeAll(ms[i + 1..], sec));
        return;
      }
    }
    assert ms[..|ms|] == ms;
  }

  lemma EncodeUpTo(ms: seq<Message>, i: nat, sec: Security)
    requires AllSendable(ms) && i < |ms|
    ensures EncodeAll(ms[..i + 1], sec) == EncodeAll(ms[..i], sec) + Encode(ms[i], sec)
    ensures EncodeAll(ms, sec) == EncodeAll(ms[..i + 1], sec) + EncodeAll(ms[i + 1..], sec)
  {
    hide Encode, Sendable;
    EncodeAllConcat(ms[..i], [ms[i]], sec);
    assert ms[..i + 1] == ms[..i] + [ms[i]];
    assert EncodeAll([ms[i]], sec) == Encode(ms[i], sec) + EncodeAll([ms[i]][1..], sec);
    EncodeNone([ms[i]][1..], sec);
    EncodeAllConcat(ms[..i + 1], ms[i + 1..], sec);
    assert ms == ms[..i + 1] + ms[i + 1..];
  }

  lemma EncodeNone(ms: seq<Message>, sec: Security)
    requires ms == []
    ensures AllSendable(ms) && EncodeAll(ms, sec) == []
  {
  }

  /** Whatever the pieces the bytes arrive in, the receiver sees what the byte string alone determines. */
  method ReceiveMessage(stream: Stream, sec: Security) returns (r: Outcome<Message>)
    modifies stream.socket`arrivals
    ensures Agrees(r, stream.Unread(), TakeMessage(old(stream.Unread()), sec), stream.socket.Ending())
  {
    hide Flat, TakeInt, TakeContent, IsValidType;
    var typ := stream.ReadInt();
    if typ.Thrown? {
      return Thrown(typ.error);
    }
    if !IsValidType(typ.value) {
      return Thrown(NetErrData);
    }
    var id := stream.ReadInt();
    if id.Thrown? {
      return Thrown(id.error);
    }
    var filter := stream.ReadInt();
    if filter.Thrown? {
      return Thrown(filter.error);
    }
    var group := stream.ReadInt();
    if group.Thrown? {
      return Thrown(group.error);
    }
    r := ReceiveContent(stream, typ.value, id.value, filter.value, group.value, sec);
  }

  method ReceiveContent(stream: Stream, typ: int, id: int, filter: int, group: int, sec: Security)
    returns (r: Outcome<Message>)
    modifies stream.socket`arrivals
    ensures Agrees(r, stream.Unread(), TakeContent(typ, id, filter, group, old(stream.Unread()), sec),
                   stream.socket.Ending())
  {
    hide Flat, TakeInt, TakeVector;
    var len := stream.ReadInt();
    if len.Thrown? {
      return Thrown(len.error);
    }
    var buf := [];
    if len.value > 0 {
      var b := stream.Read(len.value);
      if b.Thrown? {
        return Thrown(b.error);
      }
      buf := b.value;
    }
    var sign := stream.ReadVector();
    if sign.Thrown? {
      return Thrown(sign.error);
    }
    var m := Message(typ, id, filter, group, len.value, buf);
    if !sec.verify(m, sign.value) {
      return Thrown(InvalidSignature);
    }
    return Ok(m);
  }

  /** A receiver of an encoded list of messages gets exactly that list, under any fragmentation. */
  method ReceiveAll(stream: Stream, sec: Security, ghost ms: seq<Message>, n: nat, ghost tail: seq<byte>)
    returns (got: seq<Message>)
    requires AllSendable(ms) && Trusted(sec) && n == |ms| && stream.Unread() == EncodeAll(ms, sec) + tail
    modifies stream.socket`arrivals
    ensures got == ms && stream.Unread() == tail
  {
    hide Flat, TakeMessage, Encode, Sendable, Trusted;
    got := [];
    assert ms[0..] == ms;
    for i := 0 to n
      invariant got == ms[..i] && stream.Unread() == EncodeAll(ms[i..], sec) + tail
    {
      ghost var rest := EncodeAll(ms[i + 1..], sec) + tail;
      assert ms[i..][0] == ms[i] && ms[i..][1..] == ms[i + 1..];
      Regroup(Encode(ms[i], sec), EncodeAll(ms[i + 1..], sec), tail);
      MessageRoundTrip(ms[i], rest, sec);
      var r := ReceiveMessage(stream, sec);
      got := got + [r.value];
    }
    assert ms[n..] == [];
  }

  // ----- segments -----

  /** Concatenate buffers into one message. */
  method Build(fid: int, g: int, bufs: seq<seq<byte>>, t: int, id: int) returns (m: Message)
    ensures m == Message(t, id, fid, g, |Flat(bufs)|, Flat(bufs))
  {
    hide Flat;
    var len := 0;
    FlatNone(bufs);
    for i := 0 to |bufs|
      invariant len == |Flat(bufs[..i])|
    {
      FlatNext(bufs, i);
      len := len + |bufs[i]|;
    }
    assert bufs[..|bufs|] == bufs;
    if len == 0 {
      return Message(t, id, fid, g, len, []);
    }
    var buf := new byte[len];
    var ptr := 0;
    for i := 0 to |bufs|
      invariant ptr == |Flat(bufs[..i])| <= len && buf[..ptr] == Flat(bufs[..i])
    {
      FlatNext(bufs, i);
      FlatTake(bufs, i + 1);
      ghost var before := buf[..ptr];
      forall k | 0 <= k < |bufs[i]| {
        buf[ptr + k] := bufs[i][k];
      }
      ptr := ptr + |bufs[i]|;
      assert buf[..ptr] == before + bufs[i];
    }
    assert buf[..len] == buf[..];
    return Message(t, id, fid, g, len, buf[..]);
  }

  lemma FlatNone(q: seq<seq<byte>>)
    ensures Flat(q[..0]) == []
  {
  }

  lemma FlatTake(q: seq<seq<byte>>, i: nat)
    requires i <= |q|
    ensures |Flat(q[..i])| <= |Flat(q)|
  {
    FlatConcat(q[..i], q[i..]);
    assert q[..i] + q[i..] == q;
  }

  /** Pieces of `max` bytes, the last one holding what remains. */
  function Pieces(body: seq<byte>, max: nat): seq<seq<byte>>
    requires max > 0
  {
    if body == [] then []
    else if |body| <= max then [body]
    else [body[..max]] + Pieces(body[max..], max)
  }

  lemma {:induction false} PiecesFlat(body: seq<byte>, max: nat)
    requires max > 0
    ensures Flat(Pieces(body, max)) == body
    ensures forall i :: 0 <= i < |Pieces(body, max)| ==> 0 < |Pieces(body, max)[i]| <= max
  {
    if |body| > max {
      PiecesFlat(body[max..], max);
      assert Pieces(body, max)[1..] == Pieces(body[max..], max);
      assert body == body[..max] + body[max..];
    } else if body != [] {
      assert [body][1..] == [];
    }
  }

  function Segment(m: Message, piece: seq<byte>): Message {
    m.(len := |piece|, buf := piece)
  }

  function HeadSegment(m: Message, count: int): Message {
    var filter := if m.filterID != SCI_FILTER_NULL || m.typ != COMMAND then SCI_JOIN_SEGMENT else m.filterID;
    Message(SEGMENT, count, filter, m.group, 0, [])
  }

  function SegmentsOf(m: Message, pieces: seq<seq<byte>>): seq<Message> {
    if pieces == [] then [] else [Segment(m, pieces[0])] + SegmentsOf(m, pieces[1..])
  }

  function Bodies(segments: seq<Message>): (b: seq<seq<byte>>)
    ensures |b| == |segments|
  {
    if segments == [] then [] else [segments[0].buf] + Bodies(segments[1..])
  }

  lemma {:induction false} SegmentsOfAt(m: Message, pieces: seq<seq<byte>>, i: nat)
    requires i < |pieces|
    ensures |SegmentsOf(m, pieces)| == |pieces| && SegmentsOf(m, pieces)[i] == Segment(m, pieces[i])
  {
    if |pieces| > 1 {
      SegmentsOfAt(m, pieces[1..], if i > 0 then i - 1 else 0);
    }
  }

  lemma {:induction false} BodiesOfSegments(m: Message, pieces: seq<seq<byte>>)
    ensures Bodies(SegmentsOf(m, pieces)) == pieces
  {
    if pieces != [] {
      BodiesOfSegments(m, pieces[1..]);
      assert SegmentsOf(m, pieces)[1..] == SegmentsOf(m, pieces[1..]);
    }
  }

  /** Number of the pieces by division: the form in which it is computed. */
  lemma {:induction false} PieceCount(body: seq<byte>, max: nat)
    requires max > 0
    ensures |Pieces(body, max)| == CeilDiv(|body|, max)
    ensures body != [] ==> |Pieces(body, max)| == (|body| - 1) / max + 1
  {
    if body == [] {
      DivModUnique(max - 1, max, 0, max - 1);
    } else if |body| <= max {
      DivShift(|body| - 1, max);
      DivModUnique(|body| - 1, max, 0, |body| - 1);
    } else {
      PieceCount(body[max..], max);
      DivShift(|body| - 1, max);
      DivShift(|body| - 1 - max, max);
    }
  }

  /** The size of the last piece, as it is computed. */
  function LastSize(n: nat, max: nat): nat
    requires n > 0 && max > 0
  {
    (n - 1) % max + 1
  }

  lemma LastSizeStep(n: nat, max: nat)
    requires n > 0 && max > 0
    ensures n <= max ==> LastSize(n, max) == n
    ensures n > max ==> LastSize(n, max) == LastSize(n - max, max)
  {
    if n <= max { DivModUnique(n - 1, max, 0, n - 1); } else { DivShift(n - max - 1, max); }
  }

  /** Where piece `i` starts. */
  function Start(max: nat, i: nat): nat {
    if i == 0 then 0 else max + Start(max, i - 1)
  }

  /** Where the pieces lie: one after the other, the last one ending with the contents. */
  lemma {:induction false} PieceAt(body: seq<byte>, max: nat, i: nat)
    requires max > 0 && i < |Pieces(body, max)|
    ensures body != [] && Start(max, i) <= |body|
    ensures var at, size := Start(max, i), if i < |Pieces(body, max)| - 1 then max else LastSize(|body|, max);
            && at + size <= |body|
            && Pieces(body, max)[i] == body[at..at + size]
            && (i == |Pieces(body, max)| - 1 ==> at + size == |body|)
  {
    hide LastSize;
    LastSizeStep(|body|, max);
    if |body| > max {
      var rest := body[max..];
      PieceExists(rest, max);
      if i > 0 {
        PieceAt(rest, max, i - 1);
        var size := if i < |Pieces(body, max)| - 1 then max else LastSize(|body|, max);
        SliceOfSlice(body, max, |body|, Start(max, i), Start(max, i) + size);
        assert Pieces(body, max)[i] == Pieces(rest, max)[i - 1];
      }
    }
  }

  lemma PieceExists(body: seq<byte>, max: nat)
    requires max > 0 && body != []
    ensures |Pieces(body, max)| > 0
  {
  }

  function Segments(m: Message, max: nat): seq<Message>
    requires max > 0
  {
    var segments := SegmentsOf(m, Pieces(m.buf, max));
    [HeadSegment(m, |segments| + 1)] + segments
  }

  /** The message that goes before the pieces: their number, the group, and a filter that has them joined if need be. */
  ghost predicate Heads(head: Message, m: Message, count: int) {
    && head.typ == SEGMENT && head.msgID == count && head.group == m.group && head.len == 0 && head.buf == []
    && (m.filterID == SCI_FILTER_NULL && m.typ == COMMAND ==> head.filterID == SCI_FILTER_NULL)
    && (m.filterID != SCI_FILTER_NULL || m.typ != COMMAND ==> head.filterID == SCI_JOIN_SEGMENT)
  }

  /** A piece of the contents under the header of the message. */
  ghost predicate PieceOf(seg: Message, m: Message, max: nat, i: nat) {
    && seg.typ == m.typ && seg.msgID == m.msgID && seg.filterID == m.filterID && seg.group == m.group
    && seg.len == |seg.buf|
    && 0 <= i * max && i * max + |seg.buf| <= |m.buf| && seg.buf == m.buf[i * max..i * max + |seg.buf|]
    && 0 < |seg.buf| <= max && (|seg.buf| == max || i * max + |seg.buf| == |m.buf|)
  }

  lemma PieceSegment(m: Message, max: nat, i: nat)
    requires max > 0 && i < |Pieces(m.buf, max)|
    ensures PieceOf(Segment(m, Pieces(m.buf, max)[i]), m, max, i)
  {
    hide Pieces, Flat, LastSize;
    PieceAt(m.buf, max, i);
    PiecesFlat(m.buf, max);
    StartIs(max, i);
  }

  lemma {:induction false} StartIs(max: nat, i: nat)
    ensures Start(max, i) == i * max
  {
    if i > 0 { StartIs(max, i - 1); }
  }

  /** The cutting loop, with the sizes computed by division and a moving read position. */
  method GetSegments(m: Message, max: nat) returns (segs: seq<Message>)
    requires max > 0 && m.len == |m.buf|
    ensures segs == Segments(m, max)
    ensures |segs| == CeilDiv(m.len, max) + 1 && Heads(segs[0], m, |segs|)
    ensures forall i :: 1 <= i < |segs| ==> PieceOf(segs[i], m, max, i - 1)
  {
    hide Flat, Pieces, Segment, LastSize, PieceOf;
    var segnum := CeilDiv(m.len, max) + 1;
    ghost var pieces := Pieces(m.buf, max);
    PieceCount(m.buf, max);
    assert |pieces| == segnum - 1;
    ghost var all := SegmentsOf(m, pieces);
    assert |all| == |pieces| by { if pieces != [] { SegmentsOfAt(m, pieces, 0); } }
    segs := [HeadSegment(m, segnum)];
    var ptr := 0;
    for i := 1 to segnum
      invariant i < segnum ==> ptr == Start(max, i - 1)
      invariant segs == [HeadSegment(m, segnum)] + all[..i - 1]
    {
      PieceAt(m.buf, max, i - 1);
      var size := if i < segnum - 1 then max else LastSize(m.len, max);
      var seg := Build(m.filterID, m.group, [m.buf[ptr..ptr + size]], m.typ, m.msgID);
      FlatOne(m.buf[ptr..ptr + size]);
      SegmentsOfAt(m, pieces, i - 1);
      SegmentIs(m, pieces[i - 1]);
      assert all[..i] == all[..i - 1] + [all[i - 1]];
      segs := segs + [seg];
      ptr := ptr + size;
    }
    assert all[..segnum - 1] == all;
    forall i | 1 <= i < |segs|
      ensures PieceOf(segs[i], m, max, i - 1)
    {
      SegmentsOfAt(m, pieces, i - 1);
      PieceSegment(m, max, i - 1);
    }
  }

  lemma SegmentIs(m: Message, piece: seq<byte>)
    ensures Segment(m, piece) == Message(m.typ, m.msgID, m.filterID, m.group, |piece|, piece)
  {
  }

  /** Join segments: header fields of the first, contents of all. There must be a first. */
  method JoinSegments(segments: seq<Message>) returns (m: Message)
    requires segments != []
    ensures var body := Flat(Bodies(segments)); m == segments[0].(len := |body|, buf := body)
  {
    hide Flat;
    var bufs := [];
    assert segments[0..] == segments;
    for i := 0 to |segments|
      invariant bufs + Bodies(segments[i..]) == Bodies(segments)
    {
      assert segments[i..][0] == segments[i] && segments[i..][1..] == segments[i + 1..];
      bufs := bufs + [segments[i].buf];
    }
    assert bufs + [] == bufs;
    m := Build(segments[0].filterID, segments[0].group, bufs, segments[0].typ, segments[0].msgID);
  }

  /** Cutting and joining gives the message back. */
  lemma JoinSegmentsInverse(m: Message, max: nat)
    requires max > 0 && m.len == |m.buf| > 0
    ensures var segments := Segments(m, max)[1..];
            && segments != []
            && var body := Flat(Bodies(segments)); segments[0].(len := |body|, buf := body) == m
  {
    var pieces := Pieces(m.buf, max);
    PieceCount(m.buf, max);
    CeilDivIs(m.len, max);
    assert Segments(m, max)[1..] == SegmentsOf(m, pieces);
    BodiesOfSegments(m, pieces);
    PiecesFlat(m.buf, max);
    SegmentsOfAt(m, pieces, 0);
  }

  /** Every segment can be sent when the message can. */
  lemma SegmentsSendable(m: Message, max: nat)
    requires max > 0 && Sendable(m) && m.len + max < 0x8000_0000
    ensures AllSendable(Segments(m, max))
  {
    hide Pieces, IsValidType;
    var pieces := Pieces(m.buf, max);
    PieceCount(m.buf, max);
    CeilDivIs(m.len, max);
    DivModUnique(max - 1, max, 0, max - 1);
    PiecesFlat(m.buf, max);
    assert |SegmentsOf(m, pieces)| == |pieces| by { if pieces != [] { SegmentsOfAt(m, pieces, 0); } }
    assert Sendable(HeadSegment(m, |pieces| + 1)) by { SegmentIsValid(); }
    forall i | 0 <= i < |pieces|
      ensures Sendable(SegmentsOf(m, pieces)[i])
    {
      SegmentsOfAt(m, pieces, i);
    }
  }

  lemma SegmentIsValid()
    ensures IsValidType(SEGMENT)
  {
  }

  /** A segmented message sent over a stream is put together again at the other end, under any fragmentation. */
  method ReceiveSegmented(stream: Stream, sec: Security, ghost m: Message, ghost max: nat, ghost tail: seq<byte>)
    returns (r: Message)
    requires max > 0 && m.len > 0 && AllSendable(Segments(m, max)) && m.len == |m.buf| && Trusted(sec)
    requires stream.Unread() == EncodeAll(Segments(m, max), sec) + tail
    modifies stream.socket`arrivals
    ensures r == m && stream.Unread() == tail
  {
    hide Flat, TakeMessage, Encode, Sendable, Pieces, Trusted;
    ghost var all := Segments(m, max);
    JoinSegmentsInverse(m, max);
    Regroup(Encode(all[0], sec), EncodeAll(all[1..], sec), tail);
    MessageRoundTrip(all[0], EncodeAll(all[1..], sec) + tail, sec);
    var head := ReceiveMessage(stream, sec);
    var segnum := head.value.msgID - 1;
    var segments := ReceiveAll(stream, sec, all[1..], segnum, tail);
    r := JoinSegments(segments);
  }
}
