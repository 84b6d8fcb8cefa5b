/**
 * Chunked transfer coding, section 7.1 of RFC 9112: what the decoder makes of a byte string, and what the encoder
 * emits.
 */
module Chunked {
  import opened HttpText
  import opened Packing
  import opened Streams

  const ULONG_MAX: nat := 0xffff_ffff_ffff_ffff
  const CPPHTTPLIB_HEADER_MAX_LENGTH: nat := 8192

  // ----- hexadecimal -----

  function HexDigit(d: nat): byte
    requires d < 16
  {
    if d < 10 then 48 + d else 87 + d
  }

  /** Lower-case digits, most significant first. */
  function ToHex(n: nat): (h: seq<byte>)
    ensures h != []
  {
    if n < 16 then [HexDigit(n)] else ToHex(n / 16) + [HexDigit(n % 16)]
  }

  method FromIToHex(n: nat) returns (ret: seq<byte>)
    ensures ret == ToHex(n)
  {
    var m := n / 16;
    ret := [HexDigit(n % 16)];
    while m > 0
      invariant ToHex(n) == (if m > 0 then ToHex(m) else []) + ret
    {
      ghost var before := ret;
      ret := [HexDigit(m % 16)] + ret;
      ToHexStep(m, before);
      m := m / 16;
    }
    assert [] + ret == ret;
  }

  lemma ToHexStep(m: nat, ret: seq<byte>)
    requires m > 0
    ensures ToHex(m) + ret == (if m / 16 > 0 then ToHex(m / 16) else []) + ([HexDigit(m % 16)] + ret)
  {
    if m < 16 {
      assert ToHex(m) + ret == [] + ([HexDigit(m % 16)] + ret);
    } else {
      Regroup(ToHex(m / 16), [HexDigit(m % 16)], ret);
    }
  }

  /** The value of a hexadecimal digit of either case, or minus one. */
  function HexValue(c: byte): (v: int)
    ensures -1 <= v < 16
  {
    if 48 <= c <= 57 then c - 48
    else if 65 <= c <= 70 then c - 55
    else if 97 <= c <= 102 then c - 87
    else -1
  }

  function ReadHex(s: seq<byte>, acc: nat): nat {
    if s == [] || HexValue(s[0]) < 0 then acc else ReadHex(s[1..], acc * 16 + HexValue(s[0]))
  }

  function SkipSpace(s: seq<byte>): seq<byte> {
    if s != [] && (9 <= s[0] <= 13 || s[0] == 32) then SkipSpace(s[1..]) else s
  }

  /** A leading `0x` counts only when a digit follows. */
  function SkipPrefix(s: seq<byte>): seq<byte> {
    if |s| >= 3 && s[0] == 48 && (s[1] == 120 || s[1] == 88) && HexValue(s[2]) >= 0 then s[2..] else s
  }

  datatype Number = NoNumber | Number(value: nat)

  /** `strtoul` in base 16: blanks, sign and prefix are accepted, and a value too large becomes the maximum. */
  function Strtoul(line: seq<byte>): Number {
    var s := SkipSpace(line);
    var negative := s != [] && s[0] == 45;
    var unsigned := if s != [] && (s[0] == 43 || s[0] == 45) then s[1..] else s;
    Converted(SkipPrefix(unsigned), negative)
  }

  function Converted(digits: seq<byte>, negative: bool): Number {
    if digits == [] || HexValue(digits[0]) < 0 then NoNumber
    else
      var v := ReadHex(digits, 0);
      if v > ULONG_MAX then Number(ULONG_MAX)
      else if negative && v > 0 then Number(ULONG_MAX + 1 - v)
      else Number(v)
  }

  const LOWER: string := "0123456789abcdef"
  const UPPER: string := "0123456789ABCDEF"

  /** The digits of either case, and nothing else. */
  lemma HexDigitValues(c: byte)
    ensures forall d :: 0 <= d < 16 ==> (c == LOWER[d] as int || c == UPPER[d] as int ==> HexValue(c) == d)
    ensures HexValue(c) >= 0 ==> c == LOWER[HexValue(c)] as int || c == UPPER[HexValue(c)] as int
  {
  }

  ghost predicate AllHex(s: seq<byte>) {
    forall i :: 0 <= i < |s| ==> HexValue(s[i]) >= 0
  }

  /** The number that hexadecimal digits say, by its last digit. */
  function HexNumber(s: seq<byte>): int {
    if s == [] then 0 else 16 * HexNumber(s[..|s| - 1]) + HexValue(s[|s| - 1])
  }

  lemma {:induction false} ReadHexIs(digits: seq<byte>, rest: seq<byte>)
    requires AllHex(digits) && (rest == [] || HexValue(rest[0]) < 0)
    ensures HexNumber(digits) >= 0 && ReadHex(digits + rest, 0) == HexNumber(digits)
  {
    var n := ReadOn(digits, [], rest);
    assert [] + digits == digits;
  }

  lemma {:induction false} ReadOn(digits: seq<byte>, before: seq<byte>, rest: seq<byte>) returns (n: nat)
    requires AllHex(before + digits) && (rest == [] || HexValue(rest[0]) < 0)
    ensures n == HexNumber(before) >= 0
    ensures ReadHex(digits + rest, n) == HexNumber(before + digits) >= 0
    decreases |digits|
  {
    n := NonNegativeHex(before, digits);
    if digits == [] {
      assert digits + rest == rest && before + digits == before;
    } else {
      var d, more := digits[0], digits[1..];
      assert (before + digits)[|before|] == d;
      assert before + digits == before + [d] + more;
      var n' := ReadOn(more, before + [d], rest);
      assert (before + [d])[..|before + [d]| - 1] == before;
      assert (digits + rest)[0] == d && (digits + rest)[1..] == more + rest;
    }
  }

  lemma {:induction false} NonNegativeHex(s: seq<byte>, more: seq<byte>) returns (n: nat)
    requires AllHex(s + more)
    ensures n == HexNumber(s)
    decreases |s|
  {
    if s == [] {
      n := 0;
    } else {
      var last := s[|s| - 1];
      assert (s + more)[|s| - 1] == last;
      assert s + more == s[..|s| - 1] + ([last] + more);
      var k := NonNegativeHex(s[..|s| - 1], [last] + more);
      n := 16 * k + HexValue(last);
    }
  }

  /**
   * `strtoul` reads blanks, a sign, a prefix and digits of either case: the number they say, its negative modulo 2^64
   * after a minus, and the maximum when it is too large.
   */
  lemma StrtoulReads(blanks: seq<byte>, sign: seq<byte>, prefix: seq<byte>, digits: seq<byte>, rest: seq<byte>)
    requires forall i :: 0 <= i < |blanks| ==> 9 <= blanks[i] <= 13 || blanks[i] == 32
    requires sign == [] || sign == [43] || sign == [45]
    requires prefix == [] || prefix == [48, 120] || prefix == [48, 88]
    requires digits != [] && AllHex(digits) && (rest == [] || HexValue(rest[0]) < 0)
    requires prefix == [] && digits == [48] && |rest| >= 2 && (rest[0] == 120 || rest[0] == 88) ==>
               HexValue(rest[1]) < 0
    ensures HexNumber(digits) >= 0
    ensures Strtoul(blanks + (sign + (prefix + (digits + rest)))) ==
            if HexNumber(digits) > ULONG_MAX then Number(ULONG_MAX)
            else if sign == [45] && HexNumber(digits) > 0 then Number(ULONG_MAX + 1 - HexNumber(digits))
            else Number(HexNumber(digits))
  {
    hide HexNumber, ReadHex, SkipPrefix, Strtoul;
    ReadHexIs(digits, rest);
    PrefixSkipped(prefix, digits, rest);
    var body := digits + rest;
    assert body[0] == digits[0] && HexValue(digits[0]) >= 0;
    FirstOf(prefix, body);
    SignSkipped(blanks, sign, prefix + body);
  }

  lemma FirstOf(prefix: seq<byte>, body: seq<byte>)
    requires prefix == [] || prefix[0] == 48
    requires body != [] && HexValue(body[0]) >= 0
    ensures prefix + body != [] && HexValue((prefix + body)[0]) >= 0
  {
  }

  lemma SignSkipped(blanks: seq<byte>, sign: seq<byte>, tail: seq<byte>)
    requires forall i :: 0 <= i < |blanks| ==> 9 <= blanks[i] <= 13 || blanks[i] == 32
    requires sign == [] || sign == [43] || sign == [45]
    requires tail != [] && HexValue(tail[0]) >= 0
    ensures Strtoul(blanks + (sign + tail)) == Converted(SkipPrefix(tail), sign == [45])
  {
    hide SkipSpace, SkipPrefix, Converted;
    var s := sign + tail;
    assert sign == [] ==> s == tail;
    assert sign != [] ==> s[0] == sign[0] && s[1..] == tail;
    SpaceSkipped(blanks, s);
  }

  lemma {:induction false} SpaceSkipped(blanks: seq<byte>, s: seq<byte>)
    requires forall i :: 0 <= i < |blanks| ==> 9 <= blanks[i] <= 13 || blanks[i] == 32
    requires s != [] && !(9 <= s[0] <= 13 || s[0] == 32)
    ensures SkipSpace(blanks + s) == s
    decreases |blanks|
  {
    if blanks == [] {
      assert blanks + s == s;
    } else {
      SpaceSkipped(blanks[1..], s);
      assert (blanks + s)[1..] == blanks[1..] + s;
    }
  }

  lemma PrefixSkipped(prefix: seq<byte>, digits: seq<byte>, rest: seq<byte>)
    requires prefix == [] || prefix == [48, 120] || prefix == [48, 88]
    requires digits != [] && AllHex(digits) && (rest == [] || HexValue(rest[0]) < 0)
    requires prefix == [] && digits == [48] && |rest| >= 2 && (rest[0] == 120 || rest[0] == 88) ==>
               HexValue(rest[1]) < 0
    ensures SkipPrefix(prefix + (digits + rest)) == digits + rest
  {
    var body := digits + rest;
    if prefix == [] {
      assert prefix + body == body;
      if |digits| > 1 {
        assert body[1] == digits[1] && HexValue(digits[1]) >= 0;
      } else if |rest| >= 2 {
        assert digits == [digits[0]] && body[1] == rest[0] && body[2] == rest[1];
      }
    } else {
      assert (prefix + body)[0] == 48 && (prefix + body)[1] == prefix[1] && (prefix + body)[2] == body[0] == digits[0];
      assert (prefix + body)[2..] == body;
    }
  }

  /** Without a digit after blanks and sign there is no number. */
  lemma StrtoulRefuses(blanks: seq<byte>, sign: seq<byte>, rest: seq<byte>)
    requires forall i :: 0 <= i < |blanks| ==> 9 <= blanks[i] <= 13 || blanks[i] == 32
    requires sign == [] || sign == [43] || sign == [45]
    requires rest == [] || HexValue(rest[0]) < 0
    requires sign == [] ==> rest != [] && !(9 <= rest[0] <= 13 || rest[0] == 32 || rest[0] == 43 || rest[0] == 45)
    ensures Strtoul(blanks + (sign + rest)) == NoNumber
  {
    var s := sign + rest;
    assert sign == [] ==> s == rest;
    assert sign != [] ==> s[0] == sign[0] && s[1..] == rest;
    SpaceSkipped(blanks, s);
  }

  /** Written numbers use the digits and the lower-case letters. */
  lemma {:induction false} ToHexLower(n: nat, i: nat)
    requires i < |ToHex(n)|
    ensures exists d :: 0 <= d < 16 && ToHex(n)[i] == LOWER[d] as int
  {
    hide HexDigit;
    HexDigitLower(n % 16);
    if n >= 16 && i < |ToHex(n / 16)| {
      ToHexLower(n / 16, i);
    }
  }

  lemma HexDigitLower(d: nat)
    requires d < 16
    ensures HexDigit(d) == LOWER[d] as int && HexValue(HexDigit(d)) == d
  {
  }

  /** And say the number. */
  lemma {:induction false} ToHexNumber(n: nat)
    ensures HexNumber(ToHex(n)) == n
  {
    hide HexDigit, HexValue;
    HexDigitLower(n % 16);
    if n < 16 {
      assert ToHex(n)[..0] == [];
    } else {
      ToHexNumber(n / 16);
      assert ToHex(n)[..|ToHex(n)| - 1] == ToHex(n / 16);
    }
  }

  lemma {:induction false} ReadToHex(n: nat, rest: seq<byte>)
    ensures ReadHex(ToHex(n) + rest, 0) == ReadHex(rest, n)
  {
    var d := HexDigit(n % 16);
    assert HexValue(d) == n % 16;
    if n < 16 {
      assert (ToHex(n) + rest)[1..] == rest;
    } else {
      Regroup(ToHex(n / 16), [d], rest);
      ReadToHex(n / 16, [d] + rest);
      assert ([d] + rest)[1..] == rest;
    }
  }

  /** Written numbers are digits only, and only zero starts with a zero. */
  lemma {:induction false} ToHexDigits(n: nat)
    ensures forall i :: 0 <= i < |ToHex(n)| ==> HexValue(ToHex(n)[i]) >= 0
    ensures ToHex(n)[0] == 48 ==> n == 0 && ToHex(n) == [48]
  {
    if n >= 16 { ToHexDigits(n / 16); }
  }

  lemma StrtoulToHex(n: nat)
    requires n <= ULONG_MAX
    ensures Strtoul(ToHex(n) + CRLF) == Number(n)
  {
    hide ToHex, ReadHex;
    var s := ToHex(n) + CRLF;
    ToHexDigits(n);
    assert HexValue(s[0]) >= 0;
    assert SkipSpace(s) == s;
    assert SkipPrefix(s) == s;
    ReadToHex(n, CRLF);
    assert ReadHex(CRLF, n) == n by { NotHex(CRLF, n); }
  }

  lemma NotHex(s: seq<byte>, acc: nat)
    requires s != [] && HexValue(s[0]) < 0
    ensures ReadHex(s, acc) == acc
  {
  }

  // ----- lines -----

  /** Length of the line, up to and including the first LF after a CR, or to the end of input. */
  function LineEnd(s: seq<byte>, prev: byte): (n: nat)
    ensures n <= |s| && (s != [] ==> n > 0)
    decreases |s|
  {
    if s == [] then 0
    else if prev == 13 && s[0] == 10 then 1
    else 1 + LineEnd(s[1..], s[0])
  }

  lemma {:induction false} LineEndAt(text: seq<byte>, rest: seq<byte>, prev: byte)
    requires prev != 13 && 13 !in text
    ensures LineEnd(text + CRLF + rest, prev) == |text| + 2
    decreases |text|
  {
    var s := text + CRLF + rest;
    if text == [] {
      assert s[0] == 13 && s[1..][0] == 10;
    } else {
      assert s[1..] == text[1..] + CRLF + rest;
      LineEndAt(text[1..], rest, text[0]);
    }
  }

  /** Splitting off a line that contains no CR of its own. */
  lemma LineSplit(text: seq<byte>, rest: seq<byte>)
    requires 13 !in text
    ensures var s := text + CRLF + rest; var n := LineEnd(s, 0); s[..n] == text + CRLF && s[n..] == rest && s != []
  {
    LineEndAt(text, rest, 0);
  }

  // ----- decoder, on the whole input -----

  /** Whether it succeeded, the bytes delivered, the trailer lines handed to the header parser, and what is left. */
  datatype Decoded = Decoded(ok: bool, out: seq<byte>, trailer: seq<seq<byte>>, rest: seq<byte>)

  /** A line without its terminator. */
  function Text(line: seq<byte>): seq<byte> {
    if |line| >= 2 then line[..|line| - 2] else []
  }

  /** Lines after the last chunk are header fields, up to an empty line; the absence of them all is accepted. */
  function ReadFields(s: seq<byte>, out: seq<byte>): Decoded {
    if s == [] then Decoded(true, out, [], []) else FieldLine(s[..LineEnd(s, 0)], s[LineEnd(s, 0)..], out, [])
  }

  function FieldLine(line: seq<byte>, s: seq<byte>, out: seq<byte>, got: seq<seq<byte>>): Decoded
    decreases |s|
  {
    if CString(line) == CRLF then Decoded(true, out, got, s)
    else if |line| > CPPHTTPLIB_HEADER_MAX_LENGTH then Decoded(false, out, got, s)
    else if s == [] then Decoded(false, out, got + [Text(line)], [])
    else FieldLine(s[..LineEnd(s, 0)], s[LineEnd(s, 0)..], out, got + [Text(line)])
  }

  function ReadChunked(s: seq<byte>, out: seq<byte>): Decoded
    decreases |s|
  {
    if s == [] then Decoded(false, out, [], []) else SizeLine(s[..LineEnd(s, 0)], s[LineEnd(s, 0)..], out)
  }

  /** What follows a line that should hold a chunk size. */
  function SizeLine(line: seq<byte>, s: seq<byte>, out: seq<byte>): Decoded
    decreases |s|
  {
    match Strtoul(line)
    case NoNumber => Decoded(false, out, [], s)
    case Number(len) =>
      if len == ULONG_MAX then Decoded(false, out, [], s)
      else if len == 0 then ReadFields(s, out)
      else if len > |s| then Decoded(false, out + s, [], [])
      else ChunkEnd(s[len..], out + s[..len])
  }

  /** Every chunk is followed by an empty line. */
  function ChunkEnd(s: seq<byte>, out: seq<byte>): Decoded
    decreases |s|
  {
    if s == [] then Decoded(false, out, [], [])
    else
      var n := LineEnd(s, 0);
      if CString(s[..n]) != CRLF then Decoded(false, out, [], s[n..]) else ReadChunked(s[n..], out)
  }

  /** What has been delivered stays delivered. */
  lemma {:induction false} FieldsKeep(line: seq<byte>, s: seq<byte>, out: seq<byte>, got: seq<seq<byte>>)
    ensures FieldLine(line, s, out, got).out == out
    decreases |s|
  {
    if s != [] { FieldsKeep(s[..LineEnd(s, 0)], s[LineEnd(s, 0)..], out, got + [Text(line)]); }
  }

  lemma {:induction false} ChunkedKeeps(s: seq<byte>, out: seq<byte>)
    ensures out <= ReadChunked(s, out).out
    decreases |s|, 0
  {
    hide LineEnd, SizeLine;
    if s != [] { SizeLineKeeps(s[..LineEnd(s, 0)], s[LineEnd(s, 0)..], out); }
  }

  lemma {:induction false} SizeLineKeeps(line: seq<byte>, s: seq<byte>, out: seq<byte>)
    ensures out <= SizeLine(line, s, out).out
    decreases |s|, 1
  {
    hide Strtoul, LineEnd, ChunkEnd, FieldLine;
    match Strtoul(line)
    case NoNumber =>
    case Number(len) =>
      if len == 0 {
        if s != [] { FieldsKeep(s[..LineEnd(s, 0)], s[LineEnd(s, 0)..], out, []); }
      } else if len <= |s| && len != ULONG_MAX {
        ChunkEndKeeps(s[len..], out + s[..len]);
      }
  }

  lemma {:induction false} ChunkEndKeeps(s: seq<byte>, out: seq<byte>)
    ensures out <= ChunkEnd(s, out).out
    decreases |s|, 2
  {
    hide LineEnd, CString, ReadChunked;
    if s != [] { ChunkedKeeps(s[LineEnd(s, 0)..], out); }
  }

  // ----- encoder -----

  datatype Field = Field(key: seq<byte>, value: seq<byte>)

  /** What a content provider does with its sink: write data, or finish with header fields for the trailer. */
  datatype Action = Write(data: seq<byte>) | Done(fields: seq<Field>)

  function Chunk(data: seq<byte>): seq<byte> {
    ToHex(|data|) + CRLF + (data + CRLF)
  }

  const DONE_MARKER: seq<byte> := [48] + CRLF

  function FieldText(f: Field): seq<byte> {
    f.key + [58, 32] + f.value
  }

  function FieldTexts(fields: seq<Field>): seq<seq<byte>> {
    if fields == [] then [] else [FieldText(fields[0])] + FieldTexts(fields[1..])
  }

  function FieldLines(fields: seq<Field>): seq<byte> {
    if fields == [] then [] else FieldText(fields[0]) + CRLF + FieldLines(fields[1..])
  }

  function Emit(a: Action): seq<byte> {
    match a
    case Write(data) => if data == [] then [] else Chunk(data)
    case Done(fields) => DONE_MARKER + FieldLines(fields) + CRLF
  }

  function Emission(q: seq<Action>): seq<byte> {
    if q == [] then [] else Emit(q[0]) + Emission(q[1..])
  }

  predicate Finishes(q: seq<Action>) {
    q != [] && (q[0].Done? || Finishes(q[1..]))
  }

  /** The bytes written before the first `Done`. */
  function Payload(q: seq<Action>): seq<byte> {
    if q == [] || q[0].Done? then [] else q[0].data + Payload(q[1..])
  }

  /** The fields of the first `Done`. */
  function Trailer(q: seq<Action>): seq<Field> {
    if q == [] then [] else if q[0].Done? then q[0].fields else Trailer(q[1..])
  }

  /** What was emitted after the first `Done`. */
  function Leftover(q: seq<Action>): seq<byte> {
    if q == [] then [] else if q[0].Done? then Emission(q[1..]) else Leftover(q[1..])
  }

  /** A field that stays one line: no CR in it, and not longer than the reader allows. */
  predicate Plain(f: Field) {
    13 !in FieldText(f) && |FieldText(f)| + 2 <= CPPHTTPLIB_HEADER_MAX_LENGTH
  }

  ghost predicate Representable(q: seq<Action>) {
    && (forall i :: 0 <= i < |q| && q[i].Write? ==> |q[i].data| < ULONG_MAX)
    && (forall i :: 0 <= i < |q| && q[i].Done? ==> forall f :: f in q[i].fields ==> Plain(f))
  }

  lemma CrlfLine(rest: seq<byte>)
    ensures var s := CRLF + rest; var n := LineEnd(s, 0); s != [] && s[..n] == CRLF && s[n..] == rest
    ensures CString(CRLF) == CRLF
  {
    LineSplit([], rest);
    assert [] + CRLF + rest == CRLF + rest;
  }

  /** One chunk is read as its data. */
  lemma ReadChunk(data: seq<byte>, rest: seq<byte>, out: seq<byte>)
    requires 0 < |data| < ULONG_MAX
    ensures ReadChunked(Chunk(data) + rest, out) == ReadChunked(rest, out + data)
  {
    hide Strtoul, ToHex, LineEnd, CString;
    var hex := ToHex(|data|);
    var body := data + (CRLF + rest);
    assert Chunk(data) + rest == hex + CRLF + body;
    NoCarriageReturn(|data|);
    LineSplit(hex, body);
    StrtoulToHex(|data|);
    assert body[..|data|] == data && body[|data|..] == CRLF + rest;
    assert SizeLine(hex + CRLF, body, out) == ChunkEnd(CRLF + rest, out + data);
    CrlfLine(rest);
    assert ChunkEnd(CRLF + rest, out + data) == ReadChunked(rest, out + data);
  }

  lemma NoCarriageReturn(n: nat)
    ensures 13 !in ToHex(n)
  {
    ToHexDigits(n);
  }

  /** A field line is a line of its own, and not the empty one. */
  lemma FieldIsLine(f: Field, rest: seq<byte>)
    requires Plain(f)
    ensures var s := FieldText(f) + CRLF + rest; var n := LineEnd(s, 0);
            && s != [] && s[..n] == FieldText(f) + CRLF && s[n..] == rest
            && CString(s[..n]) != CRLF && |s[..n]| <= CPPHTTPLIB_HEADER_MAX_LENGTH && Text(s[..n]) == FieldText(f)
  {
    hide LineEnd;
    var text := FieldText(f);
    LineSplit(text, rest);
    var line := text + CRLF;
    assert text != [] && line[0] == text[0] && text[0] in text;
    assert line[..|line| - 2] == text;
  }

  /** The lines of the trailer are read one by one up to the empty line. */
  lemma {:induction false} FieldsRead(fields: seq<Field>, rest: seq<byte>, out: seq<byte>, got: seq<seq<byte>>)
    requires forall f :: f in fields ==> Plain(f)
    ensures var s := FieldLines(fields) + CRLF + rest; var n := LineEnd(s, 0);
            s != [] && FieldLine(s[..n], s[n..], out, got) == Decoded(true, out, got + FieldTexts(fields), rest)
    decreases |fields|
  {
    hide LineEnd, CString, Text, FieldText, Plain;
    var s := FieldLines(fields) + CRLF + rest;
    if fields == [] {
      assert s == CRLF + rest && got + [] == got;
      CrlfLine(rest);
    } else {
      var f, more := fields[0], FieldLines(fields[1..]) + CRLF + rest;
      assert s == FieldText(f) + CRLF + more;
      FieldIsLine(f, more);
      FieldsRead(fields[1..], rest, out, got + [FieldText(f)]);
      assert got + [FieldText(f)] + FieldTexts(fields[1..]) == got + FieldTexts(fields);
    }
  }

  lemma ReadDone(fields: seq<Field>, rest: seq<byte>, out: seq<byte>)
    requires forall f :: f in fields ==> Plain(f)
    ensures ReadChunked(DONE_MARKER + FieldLines(fields) + CRLF + rest, out)
            == Decoded(true, out, FieldTexts(fields), rest)
  {
    hide Strtoul, LineEnd, CString, FieldLine, Plain, FieldTexts, FieldLines;
    var body := FieldLines(fields) + CRLF + rest;
    assert DONE_MARKER + FieldLines(fields) + CRLF + rest == [48] + CRLF + body;
    LineSplit([48], body);
    assert ToHex(0) == [48];
    StrtoulToHex(0);
    FieldsRead(fields, rest, out, []);
    assert [] + FieldTexts(fields) == FieldTexts(fields);
  }

  /**
   * The decoder delivers exactly the bytes written before the first `Done`, and it succeeds exactly when there
   * was one, with its fields as the trailer, leaving what was emitted after it.
   */
  lemma {:induction false} ReadEmission(q: seq<Action>, tail: seq<byte>, out: seq<byte>)
    requires Representable(q) && (!Finishes(q) ==> tail == [])
    ensures ReadChunked(Emission(q) + tail, out)
            == if Finishes(q) then Decoded(true, out + Payload(q), FieldTexts(Trailer(q)), Leftover(q) + tail)
               else Decoded(false, out + Payload(q), [], [])
    decreases |q|
  {
    hide ReadChunked, Chunk, Plain, FieldLines, FieldTexts;
    if q == [] {
      assert Emission(q) + tail == [];
      NothingToRead(out);
    } else if q[0].Done? {
      Regroup(Emit(q[0]), Emission(q[1..]), tail);
      ReadDone(q[0].fields, Emission(q[1..]) + tail, out);
      assert out + [] == out;
    } else {
      var data := q[0].data;
      Regroup(Emit(q[0]), Emission(q[1..]), tail);
      Regroup(out, data, Payload(q[1..]));
      if data == [] {
        assert [] + (Emission(q[1..]) + tail) == Emission(q[1..]) + tail;
        assert out + data == out;
      } else {
        ReadChunk(data, Emission(q[1..]) + tail, out);
      }
      assert Representable(q[1..]);
      ReadEmission(q[1..], tail, out + data);
    }
  }

  lemma NothingToRead(out: seq<byte>)
    ensures ReadChunked([], out) == Decoded(false, out + [], [], [])
  {
    assert out + [] == out;
  }

  // ----- lines, and input that is refused -----

  /** A line ends with the first CR LF, or with the input. */
  lemma {:induction false} LineEndFirst(s: seq<byte>, prev: byte)
    ensures var n := LineEnd(s, prev);
            && (n < |s| ==> n >= 1 && s[n - 1] == 10 && (if n == 1 then prev else s[n - 2]) == 13)
            && (forall k :: 1 <= k < n - 1 ==> !(s[k - 1] == 13 && s[k] == 10))
            && (n > 1 ==> !(prev == 13 && s[0] == 10))
    decreases |s|
  {
    if s != [] && !(prev == 13 && s[0] == 10) {
      LineEndFirst(s[1..], s[0]);
      var n := LineEnd(s, prev);
      forall k | 1 <= k < n - 1
        ensures !(s[k - 1] == 13 && s[k] == 10)
      {
        assert s[k] == s[1..][k - 1];
        if k > 1 { assert s[k - 1] == s[1..][k - 2]; }
      }
    }
  }

  /** A terminated line with nothing but its text before the terminator. */
  ghost predicate IsLine(line: seq<byte>) {
    |line| >= 2 && line[|line| - 2..] == CRLF && 13 !in line[..|line| - 2]
  }

  lemma FirstLine(line: seq<byte>, rest: seq<byte>)
    requires IsLine(line)
    ensures line + rest != [] && LineEnd(line + rest, 0) == |line|
    ensures (line + rest)[..|line|] == line && (line + rest)[|line|..] == rest
  {
    var text := line[..|line| - 2];
    assert line == text + CRLF;
    LineEndAt(text, rest, 0);
  }

  /** A size line without a number, or with the largest one, is refused, and nothing more is delivered. */
  lemma BadSizeRefused(line: seq<byte>, rest: seq<byte>, out: seq<byte>)
    requires IsLine(line) && (Strtoul(line) == NoNumber || Strtoul(line) == Number(ULONG_MAX))
    ensures ReadChunked(line + rest, out) == Decoded(false, out, [], rest)
  {
    hide Strtoul, LineEnd;
    FirstLine(line, rest);
  }

  /** A chunk for which too few bytes follow is delivered as far as it goes, and refused. */
  lemma ShortChunkRefused(line: seq<byte>, data: seq<byte>, n: nat, out: seq<byte>)
    requires IsLine(line) && Strtoul(line) == Number(n) && |data| < n < ULONG_MAX
    ensures ReadChunked(line + data, out) == Decoded(false, out + data, [], [])
  {
    hide Strtoul, LineEnd;
    FirstLine(line, data);
  }

  /** A chunk that is not followed by an empty line is delivered, and refused. */
  lemma UnclosedChunkRefused(line: seq<byte>, data: seq<byte>, close: seq<byte>, rest: seq<byte>, out: seq<byte>)
    requires IsLine(line) && Strtoul(line) == Number(|data|) && 0 < |data| < ULONG_MAX
    requires IsLine(close) && CString(close) != CRLF
    ensures ReadChunked(line + (data + (close + rest)), out) == Decoded(false, out + data, [], rest)
  {
    hide Strtoul, LineEnd, CString;
    FirstLine(line, data + (close + rest));
    FirstLine(close, rest);
    var s := data + (close + rest);
    assert s[..|data|] == data && s[|data|..] == close + rest;
    assert SizeLine(line, s, out) == ChunkEnd(close + rest, out + data);
  }

  /** Any size line and chunk that go together are read, whatever the form of the number. */
  lemma ChunkAccepted(line: seq<byte>, data: seq<byte>, rest: seq<byte>, out: seq<byte>)
    requires IsLine(line) && Strtoul(line) == Number(|data|) && 0 < |data| < ULONG_MAX
    ensures ReadChunked(line + (data + (CRLF + rest)), out) == ReadChunked(rest, out + data)
  {
    hide Strtoul, LineEnd, CString;
    FirstLine(line, data + (CRLF + rest));
    CrlfLine(rest);
    var s := data + (CRLF + rest);
    assert s[..|data|] == data && s[|data|..] == CRLF + rest;
    assert SizeLine(line, s, out) == ChunkEnd(CRLF + rest, out + data);
  }

  /** Without any line after the last chunk the body is complete; one that is too long is refused. */
  lemma TrailerEnds(line: seq<byte>, out: seq<byte>, field: seq<byte>, rest: seq<byte>)
    requires IsLine(line) && Strtoul(line) == Number(0)
    ensures ReadChunked(line, out) == Decoded(true, out, [], [])
    ensures IsLine(field) && CString(field) != CRLF && |field| > 8192 ==>
              ReadChunked(line + (field + rest), out) == Decoded(false, out, [], rest)
  {
    hide Strtoul, LineEnd, CString;
    FirstLine(line, []);
    assert line + [] == line && line[|line|..] == [];
    if IsLine(field) {
      FirstLine(line, field + rest);
      FirstLine(field, rest);
    }
  }

  /** A field line is kept without its terminator, and without the empty line after it the body is refused. */
  lemma FieldKept(line: seq<byte>, out: seq<byte>, text: seq<byte>)
    requires IsLine(line) && Strtoul(line) == Number(0)
    requires IsLine(text + CRLF) && CString(text + CRLF) != CRLF && |text| + 2 <= 8192
    ensures ReadChunked(line + (text + CRLF), out) == Decoded(false, out, [text], [])
  {
    hide Strtoul, LineEnd, CString;
    var field := text + CRLF;
    FirstLine(line, field);
    FirstLine(field, []);
    assert field + [] == field && field[..|field| - 2] == text && [] + [text] == [text];
  }

  /** What goes out for one write: nothing if there is nothing to write, otherwise one chunk. */
  lemma EmitWrite(data: seq<byte>)
    ensures Emit(Write([])) == []
    ensures data != [] ==> Emit(Write(data)) == ToHex(|data|) + [13, 10] + (data + [13, 10])
  {
    hide ToHex;
  }

  /** What goes out at the end: the empty chunk, the fields if there are any, and an empty line. */
  lemma EmitDone(f: Field)
    ensures Emit(Done([])) == [48] + [13, 10] + [] + [13, 10]
    ensures Emit(Done([f])) == [48] + [13, 10] + (f.key + [58, 32] + f.value + [13, 10]) + [13, 10]
  {
    assert FieldLines([]) == [];
    OneFieldLine(f);
  }

  lemma OneFieldLine(f: Field)
    ensures FieldLines([f]) == f.key + [58, 32] + f.value + [13, 10]
  {
    assert [f][1..] == [];
    assert FieldLines([f]) == FieldText(f) + CRLF + [];
  }
}
