/** The chunked encoder and decoder running on a stream, one fragment at a time. */
module ChunkedStreams {
  import opened HttpText
  import opened Packing
  import opened Streams
  import opened Chunked

  const CPPHTTPLIB_RECV_BUFSIZ: nat := 16384
  const LINE_BUFSIZ: nat := 16

  /** A connection: what was sent on it, and what will be read from it in pieces of any size. */
  class Connection {
    var sent: seq<byte>
    var pieces: seq<seq<byte>>

    ghost function Unread(): seq<byte>
      reads this
    {
      Flat(pieces)
    }

    constructor (incoming: seq<seq<byte>>)
      ensures sent == [] && pieces == incoming
    {
      sent, pieces := [], incoming;
    }

    /** Some of the next bytes; none only at the end. */
    method Read(size: nat) returns (data: seq<byte>)
      requires size > 0
      modifies this`pieces
      ensures old(Unread()) == data + Unread() && |data| <= size
      ensures data == [] <==> old(Unread()) == []
    {
      while pieces != [] && pieces[0] == []
        invariant Unread() == old(Unread())
        decreases |pieces|
      {
        FlatFirst(pieces);
        pieces := pieces[1..];
      }
      if pieces == [] {
        return [];
      }
      var n := if |pieces[0]| <= size then |pieces[0]| else size;
      FlatSplit(pieces, n);
      data := pieces[0][..n];
      pieces := pieces[0 := pieces[0][n..]];
    }

    /** All of the data, or a part from its beginning when writing fails. */
    method WriteData(data: seq<byte>) returns (ok: bool)
      modifies this`sent
      ensures ok ==> sent == old(sent) + data
      ensures old(sent) <= sent <= old(sent) + data
    {
      var offset := 0;
      while offset < |data|
        invariant offset <= |data| && sent == old(sent) + data[..offset]
      {
        if * {
          return false;
        }
        var n :| 0 < n <= |data| - offset;
        assert data[..offset + n] == data[..offset] + data[offset..offset + n];
        sent := sent + data[offset..offset + n];
        offset := offset + n;
      }
      assert data[..offset] == data;
      return true;
    }
  }

  /** A line in a fixed buffer, moved to a growing one when it does not fit. */
  class StreamLineReader {
    const strm: Connection
    const fixed: array<byte>
    var used: nat
    var glowable: seq<byte>

    /** The fixed buffer keeps room for the terminating NUL, and has it. */
    ghost predicate Valid()
      reads this, fixed
    {
      used < fixed.Length == LINE_BUFSIZ && (used > 0 ==> fixed[used] == 0)
    }

    function Contents(): seq<byte>
      requires Valid()
      reads this, fixed
    {
      if glowable == [] then fixed[..used] else glowable
    }

    constructor (s: Connection)
      ensures Valid() && strm == s && fresh(fixed)
    {
      strm := s;
      fixed := new byte[LINE_BUFSIZ];
      used, glowable := 0, [];
    }

    method Append(c: byte)
      requires Valid() && (glowable != [] ==> used == fixed.Length - 1)
      modifies this`used, this`glowable, fixed
      ensures Valid() && Contents() == old(Contents()) + [c]
      ensures glowable != [] ==> used == fixed.Length - 1
    {
      if used < fixed.Length - 1 {
        fixed[used] := c;
        fixed[used + 1] := 0;
        used := used + 1;
      } else {
        if glowable == [] {
          assert fixed[used] == 0;
          glowable := fixed[..used];
        }
        glowable := glowable + [c];
      }
    }

    method GetLine() returns (ok: bool)
      requires Valid()
      modifies this`used, this`glowable, fixed, strm`pieces
      ensures Valid()
      ensures var s := old(strm.Unread());
              && ok == (s != [])
              && (ok ==> Contents() == s[..LineEnd(s, 0)] && strm.Unread() == s[LineEnd(s, 0)..])
              && (!ok ==> strm.Unread() == [])
    {
      hide Flat;
      used, glowable := 0, [];
      var prev: byte := 0;
      ghost var s := strm.Unread();
      assert Contents() == [] && [] + s == s;
      var i := 0;
      while true
        invariant Valid() && (glowable != [] ==> used == fixed.Length - 1)
        invariant s == Contents() + strm.Unread() && i == |Contents()|
        invariant LineEnd(s, 0) == i + LineEnd(strm.Unread(), prev)
        decreases |strm.Unread()|
      {
        var b := strm.Read(1);
        if b == [] {
          if i == 0 {
            return false;
          }
          break;
        }
        ghost var u := strm.Unread();
        assert ([b[0]] + u)[1..] == u && b == [b[0]];
        Regroup(Contents(), b, u);
        Append(b[0]);
        i := i + 1;
        if prev == 13 && b[0] == 10 {
          break;
        }
        prev := b[0];
      }
      assert s[..i] == Contents() && s[i..] == strm.Unread();
      return true;
    }
  }

  /** Who the content goes to: what has been given so far and the next piece, and whether to go on. */
  type Receiver = (seq<byte>, seq<byte>) -> bool

  /** The last piece of what was given was refused. */
  ghost predicate LastRefused(receiver: Receiver, out: seq<byte>) {
    exists n :: 0 <= n < |out| && !receiver(out[..n], out[n..])
  }

  /**
   * The next `len` bytes are given to the receiver piece by piece. Unless it or the progress callback refuses, all
   * of them are given, or all there are when there are too few.
   */
  method ReadContentWithLength(strm: Connection, len: nat, before: seq<byte>, receiver: Receiver, progress: nat -> bool)
    returns (ok: bool, refused: bool, out: seq<byte>)
    modifies strm`pieces
    ensures !refused ==> ok == (len <= |old(strm.Unread())|)
    ensures ok ==>
              && len <= |old(strm.Unread())| && out == old(strm.Unread())[..len]
              && strm.Unread() == old(strm.Unread())[len..]
    ensures !ok && !refused ==> out == old(strm.Unread()) && strm.Unread() == []
    ensures refused ==> !ok && (LastRefused(receiver, before + out) || !progress(|out|))
    ensures |out| <= len && old(strm.Unread()) == out + strm.Unread()
  {
    hide Flat;
    out, refused := [], false;
    ghost var s := strm.Unread();
    assert [] + s == s;
    while |out| < len
      invariant |out| <= len && s == out + strm.Unread() && !refused
      decreases len - |out|
    {
      var want := len - |out|;
      var data := strm.Read(if want < CPPHTTPLIB_RECV_BUFSIZ then want else CPPHTTPLIB_RECV_BUFSIZ);
      if data == [] {
        assert out + [] == out;
        return false, false, out;
      }
      Regroup(out, data, strm.Unread());
      var accepted := receiver(before + out, data);
      LastPiece(receiver, before, out, data);
      out := out + data;
      if !accepted || !progress(|out|) {
        return false, true, out;
      }
    }
    return true, false, out;
  }

  /**
   * Under any fragmentation the decoder does what the whole byte string determines; a receiver that refuses has been
   * given a beginning of what would have been delivered.
   */
  method ReadContentChunked(strm: Connection, receiver: Receiver)
    returns (ok: bool, refused: bool, out: seq<byte>, trailer: seq<seq<byte>>)
    modifies strm`pieces
    ensures var d := ReadChunked(old(strm.Unread()), []);
            && (!refused ==> ok == d.ok && out == d.out && trailer == d.trailer)
            && (ok ==> strm.Unread() == d.rest)
            && (refused ==> !ok && out <= d.out && LastRefused(receiver, out))
  {
    hide Flat, LineEnd, Strtoul, CString, ReadFields, LastRefused;
    ok, refused, out, trailer := false, false, [], [];
    ghost var d := ReadChunked(strm.Unread(), []);
    var lines := new StreamLineReader(strm);
    var more := lines.GetLine();
    if !more {
      return;
    }
    while true
      invariant lines.Valid() && lines.strm == strm && fresh(lines) && fresh(lines.fixed)
      invariant !ok && !refused && trailer == []
      invariant SizeLine(lines.Contents(), strm.Unread(), out) == d
      decreases |strm.Unread()|
    {
      ghost var s, line, given := strm.Unread(), lines.Contents(), out;
      var number := Strtoul(lines.Contents());
      if number.NoNumber? || number.value == ULONG_MAX {
        return;
      }
      if number.value == 0 {
        break;
      }
      var full, stopped, data := ReadContentWithLength(strm, number.value, out, receiver, _ => true);
      out := out + data;
      if stopped {
        GivenIsBeginning(line, s, given, number.value, data);
        return false, true, out, [];
      }
      if !full {
        return;
      }
      assert ChunkEnd(strm.Unread(), out) == d;
      more := lines.GetLine();
      if !more {
        return;
      }
      if CString(lines.Contents()) != CRLF {
        return;
      }
      assert ReadChunked(strm.Unread(), out) == d;
      more := lines.GetLine();
      if !more {
        return;
      }
    }
    ok, trailer := ReadTrailer(strm, lines, out);
  }

  lemma LastPiece(receiver: Receiver, before: seq<byte>, out: seq<byte>, data: seq<byte>)
    requires data != []
    ensures !receiver(before + out, data) ==> LastRefused(receiver, before + (out + data))
  {
    var all, n := before + (out + data), |before + out|;
    assert all[..n] == before + out && all[n..] == data;
  }

  /** A part of a chunk, after what went before it, is a beginning of what is delivered. */
  lemma GivenIsBeginning(line: seq<byte>, s: seq<byte>, out: seq<byte>, len: nat, data: seq<byte>)
    requires Strtoul(line) == Number(len) && 0 < len && len != ULONG_MAX && |data| <= len && data <= s
    ensures out + data <= SizeLine(line, s, out).out
  {
    hide Strtoul, ChunkEnd;
    if len <= |s| {
      ChunkEndKeeps(s[len..], out + s[..len]);
      assert s[..len] == data + s[|data|..len];
      Regroup(out, data, s[|data|..len]);
      assert out + data <= out + s[..len];
    } else {
      assert s == data + s[|data|..];
      Regroup(out, data, s[|data|..]);
    }
  }

  method ReadTrailer(strm: Connection, lines: StreamLineReader, ghost out: seq<byte>)
    returns (ok: bool, trailer: seq<seq<byte>>)
    requires lines.Valid() && lines.strm == strm
    modifies lines`used, lines`glowable, lines.fixed, strm`pieces
    ensures var d := ReadFields(old(strm.Unread()), out);
            ok == d.ok && out == d.out && trailer == d.trailer && (ok ==> strm.Unread() == d.rest)
  {
    hide Flat, LineEnd, CString;
    ghost var d := ReadFields(strm.Unread(), out);
    trailer := [];
    var more := lines.GetLine();
    if !more {
      return true, [];
    }
    FieldsKeep(lines.Contents(), strm.Unread(), out, []);
    while CString(lines.Contents()) != CRLF
      invariant lines.Valid() && d.out == out
      invariant FieldLine(lines.Contents(), strm.Unread(), out, trailer) == d
      decreases |strm.Unread()|
    {
      if |lines.Contents()| > CPPHTTPLIB_HEADER_MAX_LENGTH {
        return false, trailer;
      }
      trailer := trailer + [Text(lines.Contents())];
      more := lines.GetLine();
      if !more {
        return false, trailer;
      }
    }
    return true, trailer;
  }

  // ----- writing -----

  /** The pieces in which an action is handed to the connection. */
  function Parts(a: Action): seq<seq<byte>> {
    match a
    case Write(data) => if data == [] then [] else [Chunk(data)]
    case Done(fields) => [DONE_MARKER] + FieldParts(fields) + [CRLF]
  }

  function FieldParts(fields: seq<Field>): seq<seq<byte>> {
    if fields == [] then [] else [FieldText(fields[0]) + CRLF] + FieldParts(fields[1..])
  }

  /** Together the parts are what the action emits. */
  lemma PartsAreEmission(a: Action)
    ensures Flat(Parts(a)) == Emit(a)
  {
    hide Chunk, FieldLines, FieldParts, Flat;
    match a
    case Write(data) =>
      FlatEmpty();
      FlatOne(Chunk(data));
    case Done(fields) =>
      FieldPartsFlat(fields);
      FlatOne(DONE_MARKER);
      FlatOne(CRLF);
      FlatConcat([DONE_MARKER], FieldParts(fields));
      FlatConcat([DONE_MARKER] + FieldParts(fields), [CRLF]);
  }

  lemma {:induction false} FieldPartsFlat(fields: seq<Field>)
    ensures Flat(FieldParts(fields)) == FieldLines(fields)
  {
    hide FieldText;
    if fields != [] {
      FieldPartsFlat(fields[1..]);
      FlatFirst(FieldParts(fields));
      assert FieldParts(fields)[1..] == FieldParts(fields[1..]);
    }
  }

  /** What is left of the parts when each of them may have been cut short. */
  ghost predicate Broken(frag: seq<byte>, parts: seq<seq<byte>>)
    decreases |parts|
  {
    if parts == [] then frag == []
    else exists k :: 0 <= k <= |frag| && frag[..k] <= parts[0] && Broken(frag[k..], parts[1..])
  }

  lemma {:induction false} BrokenSnoc(frag: seq<byte>, parts: seq<seq<byte>>, piece: seq<byte>, p: seq<byte>)
    requires Broken(frag, parts) && piece <= p
    ensures Broken(frag + piece, parts + [p])
    decreases |parts|
  {
    var all, more := frag + piece, parts + [p];
    if parts == [] {
      assert more[1..] == [] && all[..|piece|] == piece && all[|piece|..] == [];
    } else {
      var k :| 0 <= k <= |frag| && frag[..k] <= parts[0] && Broken(frag[k..], parts[1..]);
      BrokenSnoc(frag[k..], parts[1..], piece, p);
      assert more[1..] == parts[1..] + [p] && all[..k] == frag[..k] && all[k..] == frag[k..] + piece;
    }
  }

  lemma BrokenOne(piece: seq<byte>, p: seq<byte>)
    requires piece <= p
    ensures Broken(piece, [p])
  {
    BrokenSnoc([], [], piece, p);
    assert [] + piece == piece && [] + [p] == [p];
  }

  /** Everything before action `j` went out, and of that one what is left when its parts are cut short. */
  ghost predicate CutAt(frag: seq<byte>, q: seq<Action>, j: nat)
    requires j < |q|
  {
    var whole := Emission(q[..j]);
    whole <= frag && Broken(frag[|whole|..], Parts(q[j]))
  }

  ghost predicate Cut(frag: seq<byte>, q: seq<Action>) {
    exists j :: 0 <= j < |q| && CutAt(frag, q, j)
  }

  lemma CutHere(frag: seq<byte>, q: seq<Action>, j: nat, f: seq<byte>)
    requires j < |q| && frag == Emission(q[..j]) + f && Broken(f, Parts(q[j]))
    ensures CutAt(frag, q, j)
  {
    hide Emission, Broken;
    assert frag[|Emission(q[..j])|..] == f;
  }

  lemma EmissionSnoc(q: seq<Action>, i: nat)
    requires i < |q|
    ensures Emission(q[..i + 1]) == Emission(q[..i]) + Emit(q[i])
  {
    hide Emit;
    assert q[..i + 1] == q[..i] + [q[i]] && [q[i]][1..] == [];
    EmissionConcat(q[..i], [q[i]]);
    assert Emit(q[i]) + [] == Emit(q[i]);
  }

  /** A sequence of actions cut in its middle part, when that comes after `p` and before `r`. */
  lemma CutWithin(p: seq<Action>, frag: seq<byte>, q: seq<Action>, r: seq<Action>)
    requires Cut(frag, q)
    ensures Cut(Emission(p) + frag, p + q + r)
  {
    hide Emission, Broken, Parts;
    var j :| 0 <= j < |q| && CutAt(frag, q, j);
    var all, i, f := p + q + r, |p| + j, frag[|Emission(q[..j])|..];
    assert all[..i] == p + q[..j] && all[i] == q[j];
    EmissionConcat(p, q[..j]);
    assert frag == Emission(q[..j]) + f;
    Regroup(Emission(p), Emission(q[..j]), f);
    CutHere(Emission(p) + frag, all, i, f);
  }

  /** The last action says that no data is to come. */
  predicate Stops(q: seq<Action>) {
    q != [] && (q[|q| - 1].Done? || q[|q| - 1].data == [])
  }

  /** The sink a content provider writes to. Once a write has failed it writes no more. */
  class DataSink {
    const strm: Connection
    var dataAvailable: bool
    var offset: nat
    var ok: bool

    constructor (s: Connection)
      ensures strm == s && dataAvailable && offset == 0 && ok
    {
      strm, dataAvailable, offset, ok := s, true, 0, true;
    }

    method Do(a: Action)
      modifies this`dataAvailable, this`offset, this`ok, strm`sent
      ensures ok ==> old(ok) && strm.sent == old(strm.sent) + Emit(a)
      ensures old(strm.sent) <= strm.sent && (!old(ok) ==> strm.sent == old(strm.sent))
      ensures old(ok) ==> Broken(strm.sent[|old(strm.sent)|..], Parts(a))
      ensures dataAvailable == if old(ok) then a.Write? && a.data != [] else old(dataAvailable)
      ensures offset == old(offset) + if old(ok) && a.Write? then |a.data| else 0
    {
      hide Broken;
      if !ok {
        return;
      }
      match a
      case Write(data) =>
        dataAvailable := |data| > 0;
        offset := offset + |data|;
        if data != [] {
          var hex := FromIToHex(|data|);
          Regroup(hex + CRLF, data, CRLF);
          ok := strm.WriteData(hex + CRLF + data + CRLF);
          BrokenOne(strm.sent[|old(strm.sent)|..], Chunk(data));
        } else {
          NothingBroken(strm.sent);
        }
      case Done(fields) =>
        dataAvailable := false;
        Finish(fields);
    }

    /** Marker, trailer and empty line: each is written even if one before it failed. */
    method Finish(fields: seq<Field>)
      requires ok
      modifies this`ok, strm`sent
      ensures ok ==> strm.sent == old(strm.sent) + Emit(Done(fields))
      ensures old(strm.sent) <= strm.sent && Broken(strm.sent[|old(strm.sent)|..], Parts(Done(fields)))
    {
      hide FieldText, Broken;
      ghost var w, parts := strm.sent, [DONE_MARKER];
      ok := strm.WriteData(DONE_MARKER);
      BrokenOne(strm.sent[|w|..], DONE_MARKER);
      assert fields[0..] == fields;
      Regroup(w, DONE_MARKER, FieldLines(fields));
      for i := 0 to |fields|
        invariant w <= strm.sent && Broken(strm.sent[|w|..], parts)
        invariant parts + FieldParts(fields[i..]) == [DONE_MARKER] + FieldParts(fields)
        invariant ok ==> strm.sent + FieldLines(fields[i..]) == w + (DONE_MARKER + FieldLines(fields))
      {
        ghost var before, text := strm.sent, FieldText(fields[i]) + CRLF;
        assert fields[i..][0] == fields[i] && fields[i..][1..] == fields[i + 1..];
        Regroup(before, text, FieldLines(fields[i + 1..]));
        PartsStep(parts, text, FieldParts(fields[i + 1..]));
        var written := strm.WriteData(FieldText(fields[i]) + CRLF);
        BrokenAfter(w, before, strm.sent, parts, text);
        parts := parts + [text];
        ok := ok && written;
      }
      assert strm.sent + [] == strm.sent && parts + [] == parts;
      Regroup(w, DONE_MARKER + FieldLines(fields), CRLF);
      ghost var before := strm.sent;
      var written := strm.WriteData(CRLF);
      BrokenAfter(w, before, strm.sent, parts, CRLF);
      ok := ok && written;
    }

    /** What the content provider does with the sink in one call. */
    method Provide(q: seq<Action>)
      modifies this`dataAvailable, this`offset, this`ok, strm`sent
      ensures ok ==> old(ok) && strm.sent == old(strm.sent) + Emission(q)
      ensures old(strm.sent) <= strm.sent && (!old(ok) ==> strm.sent == old(strm.sent))
      ensures old(ok) && !ok ==> Cut(strm.sent[|old(strm.sent)|..], q)
      ensures ok ==> dataAvailable == if q == [] then old(dataAvailable) else !Stops(q)
    {
      hide Emit, Broken, CutAt, Parts, Emission;
      ghost var w, j := strm.sent, 0;
      NoEmission();
      assert q[..0] == [] && w + [] == w;
      for i := 0 to |q|
        invariant w <= strm.sent && (!old(ok) ==> strm.sent == w)
        invariant ok ==> old(ok) && strm.sent == w + Emission(q[..i])
        invariant old(ok) && !ok ==> 0 <= j < i && CutAt(strm.sent[|w|..], q, j)
        invariant ok && i > 0 ==> dataAvailable == (q[i - 1].Write? && q[i - 1].data != [])
        invariant i == 0 ==> dataAvailable == old(dataAvailable)
      {
        ghost var before, was := strm.sent, ok;
        EmissionSnoc(q, i);
        Do(q[i]);
        if was {
          Regroup(w, Emission(q[..i]), Emit(q[i]));
          if !ok {
            j := i;
            Since(w, before, strm.sent);
            CutHere(strm.sent[|w|..], q, i, strm.sent[|before|..]);
          }
        }
      }
      assert q[..|q|] == q;
    }
  }

  lemma NothingBroken(s: seq<byte>)
    ensures Broken(s[|s|..], [])
  {
  }

  lemma PartsStep(parts: seq<seq<byte>>, text: seq<byte>, more: seq<seq<byte>>)
    ensures parts + ([text] + more) == parts + [text] + more
  {
  }

  /** What was written since `w` is what was written up to `before` and what was written after it. */
  lemma Since(w: seq<byte>, before: seq<byte>, now: seq<byte>)
    requires w <= before <= now
    ensures now[|w|..] == before[|w|..] + now[|before|..]
  {
  }

  lemma BrokenAfter(w: seq<byte>, before: seq<byte>, now: seq<byte>, parts: seq<seq<byte>>, p: seq<byte>)
    requires w <= before <= now <= before + p && Broken(before[|w|..], parts)
    ensures Broken(now[|w|..], parts + [p])
  {
    hide Broken;
    Since(w, before, now);
    assert now[|before|..] <= p;
    BrokenSnoc(before[|w|..], parts, now[|before|..], p);
  }

  /** One call of the content provider: what it does, and whether it wants to go on. */
  datatype Call = Call(actions: seq<Action>, proceed: bool)

  /** The actions of the calls made: up to the first call that ends with no data to come or cancels. */
  function Performed(calls: seq<Call>): seq<Action> {
    if calls == [] then []
    else if !calls[0].proceed || Stops(calls[0].actions) then calls[0].actions
    else calls[0].actions + Performed(calls[1..])
  }

  /** The provider cancels before it has said that no more data is to come. */
  predicate Cancels(calls: seq<Call>) {
    calls != [] && (!calls[0].proceed || (!Stops(calls[0].actions) && Cancels(calls[1..])))
  }

  function AllActions(calls: seq<Call>): seq<Action> {
    if calls == [] then [] else calls[0].actions + AllActions(calls[1..])
  }

  /**
   * The calls made are those up to the first that cancels or ends with no data to come, that one included; if there
   * is none, all. The provider cancels if that first one does.
   */
  lemma {:induction false} CallsMade(calls: seq<Call>, k: nat)
    requires k <= |calls| && forall i :: 0 <= i < k ==> calls[i].proceed && !Stops(calls[i].actions)
    requires k == |calls| || !calls[k].proceed || Stops(calls[k].actions)
    ensures Performed(calls) == if k == |calls| then AllActions(calls) else AllActions(calls[..k]) + calls[k].actions
    ensures Cancels(calls) <==> k < |calls| && !calls[k].proceed
    decreases k
  {
    hide Stops;
    if k > 0 {
      CallsMade(calls[1..], k - 1);
      assert calls[..k][0] == calls[0] && calls[..k][1..] == calls[1..][..k - 1];
    }
  }

  datatype WriteError = Success | WriteFailed | Canceled

  /**
   * Call the provider until no more data is to come, or until shutting down after the given calls. Success means
   * that exactly what it did was written and that it did not cancel; `clean` says that no write has failed. Without
   * success whole actions were written, and if a write failed a part of the next one.
   */
  method WriteContentChunked(strm: Connection, calls: seq<Call>) returns (error: WriteError, clean: bool)
    modifies strm`sent
    ensures old(strm.sent) <= strm.sent
    ensures error == Success ==> clean && !Cancels(calls)
    ensures error == Canceled ==> Cancels(calls)
    ensures clean && error != WriteFailed ==> strm.sent == old(strm.sent) + Emission(Performed(calls))
    ensures clean ==> exists q :: q <= Performed(calls) && strm.sent == old(strm.sent) + Emission(q)
    ensures !clean ==> Cut(strm.sent[|old(strm.sent)|..], Performed(calls))
  {
    hide Emission, Cut, Progress, Performed, Cancels;
    var sink := new DataSink(strm);
    var k := 0;
    ghost var w, done := strm.sent, [];
    ProgressStarts(w, calls);
    while sink.dataAvailable && k < |calls|
      invariant k <= |calls| && sink.strm == strm && fresh(sink) && sink.ok
      invariant Progress(strm.sent, w, done, calls, k, sink.dataAvailable)
      decreases |calls| - k
    {
      ProgressWritten(strm.sent, w, done, calls, k, true);
      if * {
        return WriteFailed, sink.ok;
      }
      ghost var before := strm.sent;
      sink.Provide(calls[k].actions);
      ProgressRound(before, w, done, calls, k, strm.sent, sink.ok, sink.dataAvailable);
      if !calls[k].proceed {
        return Canceled, sink.ok;
      }
      if !sink.ok {
        return WriteFailed, false;
      }
      done := done + calls[k].actions;
      k := k + 1;
    }
    ProgressWritten(strm.sent, w, done, calls, k, sink.dataAvailable);
    ProgressDone(strm.sent, w, done, calls, k, sink.dataAvailable);
    return Success, true;
  }

  /** The actions done so far, all of them written, and those of the calls to come are all there will be. */
  ghost predicate Progress(sent: seq<byte>, w: seq<byte>, done: seq<Action>, calls: seq<Call>, k: nat, more: bool) {
    && k <= |calls| && sent == w + Emission(done)
    && (more ==> done + Performed(calls[k..]) == Performed(calls) && Cancels(calls[k..]) == Cancels(calls))
    && (!more ==> done == Performed(calls) && !Cancels(calls))
  }

  lemma ProgressStarts(w: seq<byte>, calls: seq<Call>)
    ensures Progress(w, w, [], calls, 0, true)
  {
    hide Performed, Cancels, Emission;
    NoEmission();
    assert calls[0..] == calls && w + [] == w && [] + Performed(calls) == Performed(calls);
  }

  lemma ProgressWritten(sent: seq<byte>, w: seq<byte>, done: seq<Action>, calls: seq<Call>, k: nat, more: bool)
    requires Progress(sent, w, done, calls, k, more)
    ensures w <= sent == w + Emission(done) && done <= Performed(calls)
  {
    hide Performed, Cancels, Emission;
  }

  lemma ProgressDone(sent: seq<byte>, w: seq<byte>, done: seq<Action>, calls: seq<Call>, k: nat, more: bool)
    requires Progress(sent, w, done, calls, k, more) && (!more || k == |calls|)
    ensures sent == w + Emission(Performed(calls)) && !Cancels(calls)
  {
    hide Emission;
    assert done + [] == done;
  }

  /** The call at `k`: how it splits what is still to be performed. */
  lemma CallSplits(done: seq<Action>, calls: seq<Call>, k: nat) returns (rest: seq<Action>)
    requires k < |calls| && done + Performed(calls[k..]) == Performed(calls) && Cancels(calls[k..]) == Cancels(calls)
    ensures done + calls[k].actions + rest == Performed(calls)
    ensures rest == if !calls[k].proceed || Stops(calls[k].actions) then [] else Performed(calls[k + 1..])
    ensures !calls[k].proceed ==> Cancels(calls)
    ensures calls[k].proceed && Stops(calls[k].actions) ==> !Cancels(calls)
    ensures calls[k].proceed && !Stops(calls[k].actions) ==> Cancels(calls) == Cancels(calls[k + 1..])
  {
    hide Stops;
    var q := calls[k].actions;
    assert calls[k..][0] == calls[k] && calls[k..][1..] == calls[k + 1..];
    rest := if !calls[k].proceed || Stops(q) then [] else Performed(calls[k + 1..]);
    assert q + [] == q && done + q + rest == done + (q + rest);
  }

  lemma ProgressRound(sent: seq<byte>, w: seq<byte>, done: seq<Action>, calls: seq<Call>, k: nat,
                      sent': seq<byte>, ok: bool, more: bool)
    requires k < |calls| && Progress(sent, w, done, calls, k, true) && sent <= sent'
    requires ok ==> sent' == sent + Emission(calls[k].actions) && more == !Stops(calls[k].actions)
    requires !ok ==> Cut(sent'[|sent|..], calls[k].actions)
    ensures w <= sent' && (!ok ==> Cut(sent'[|w|..], Performed(calls)))
    ensures !calls[k].proceed ==> Cancels(calls) && (ok ==> sent' == w + Emission(Performed(calls)))
    ensures calls[k].proceed && ok ==> Progress(sent', w, done + calls[k].actions, calls, k + 1, more)
  {
    hide Performed, Cancels, Emission, Stops, Cut;
    var q := calls[k].actions;
    var rest := CallSplits(done, calls, k);
    assert done + q + [] == done + q;
    EmissionConcat(done, q);
    Regroup(w, Emission(done), Emission(q));
    if !ok {
      CutWithin(done, sent'[|sent|..], q, rest);
      Since(w, sent, sent');
      assert sent[|w|..] == Emission(done);
    }
  }

  lemma NoEmission()
    ensures Emission([]) == []
  {
  }

  lemma {:induction false} EmissionConcat(p: seq<Action>, q: seq<Action>)
    ensures Emission(p + q) == Emission(p) + Emission(q)
  {
    hide Emit;
    if p == [] {
      assert p + q == q;
    } else {
      EmissionConcat(p[1..], q);
      assert (p + q)[1..] == p[1..] + q;
      Regroup(Emit(p[0]), Emission(p[1..]), Emission(q));
    }
  }

  /** A provider that writes one payload a call and then says `Done`. */
  function OnePerCall(payloads: seq<seq<byte>>, fields: seq<Field>): seq<Call> {
    if payloads == [] then [Call([Done(fields)], true)]
    else [Call([Write(payloads[0])], true)] + OnePerCall(payloads[1..], fields)
  }

  /** With no empty payload among them every call is made and all the payloads are written before `Done`. */
  lemma {:induction false} OnePerCallComplete(payloads: seq<seq<byte>>, fields: seq<Field>)
    requires forall i :: 0 <= i < |payloads| ==> payloads[i] != []
    ensures var q := Performed(OnePerCall(payloads, fields));
            Finishes(q) && Payload(q) == Flat(payloads) && Trailer(q) == fields && Leftover(q) == []
    ensures !Cancels(OnePerCall(payloads, fields))
  {
    var calls := OnePerCall(payloads, fields);
    var q := Performed(calls);
    if payloads == [] {
      assert q == [Done(fields)];
    } else {
      OnePerCallComplete(payloads[1..], fields);
      assert calls[1..] == OnePerCall(payloads[1..], fields);
      assert q == [Write(payloads[0])] + Performed(calls[1..]);
      assert q[1..] == Performed(calls[1..]);
    }
  }

  /** What a provider wrote before `Done` is what the other end delivers, however the bytes were cut up on the way. */
  method ReceivePerformed(strm: Connection, receiver: Receiver, ghost calls: seq<Call>)
    returns (ok: bool, refused: bool, out: seq<byte>, trailer: seq<seq<byte>>)
    requires Representable(Performed(calls)) && strm.Unread() == Emission(Performed(calls))
    modifies strm`pieces
    ensures !refused ==> ok == Finishes(Performed(calls)) && out == Payload(Performed(calls))
    ensures ok ==> trailer == FieldTexts(Trailer(Performed(calls)))
    ensures refused ==> out <= Payload(Performed(calls))
  {
    ghost var q := Performed(calls);
    ReadEmission(q, [], []);
    assert Emission(q) + [] == Emission(q) && [] + Payload(q) == Payload(q);
    ok, refused, out, trailer := ReadContentChunked(strm, receiver);
  }
}
