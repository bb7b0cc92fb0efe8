/** The TTC field codec: what each field is on the wire, and what a reader makes of the wire. */
module TtcFields {
  import opened Wrappers
  import opened Machine

  const MAX_SHORT_LENGTH: nat := 252
  const ESCAPE_CHAR: byte := 253
  const LONG_INDICATOR: byte := 254
  const NULL_INDICATOR: byte := 255
  const CHUNK_SIZE: nat := 32767

  datatype Error =
    | BufferUnderflow(needed: nat, available: nat)
    | InvalidLengthIndicator(n: byte)
    | DataConversion

  // What a read answers, and what it leaves unread (also when it fails).
  datatype Read<+T> = Read(answer: Result<T, Error>, rest: seq<byte>)

  // ---- Writing ----------------------------------------------------------

  function PutUb2(v: nat): seq<byte>
    requires v < 65536
  {
    if v == 0 then [0] else if v <= 255 then [1, v] else [2] + BigEndian(v, 2)
  }

  function PutUb4(v: nat): seq<byte>
    requires v < 0x1_0000_0000
  {
    if v <= 65535 then PutUb2(v) else [4] + BigEndian(v, 4)
  }

  function PutUb8(v: nat): seq<byte>
    requires v < 0x1_0000_0000_0000_0000
  {
    if v <= 0xFFFF_FFFF then PutUb4(v) else [8] + BigEndian(v, 8)
  }

  // Two's complement of a 16-bit signed integer.
  function Unsigned16(v: int): nat
    requires -32768 <= v < 32768
  {
    v % 65536
  }

  function Signed16(v: nat): int {
    if v < 32768 then v else v - 65536
  }

  function PutSb2(v: int): seq<byte>
    requires -32768 <= v < 32768
  {
    if v == 0 then [0]
    else if 0 < v <= 127 then [1, v]
    else if -127 <= v < 0 then [0x81, -v]
    else [0x82] + BigEndian(Unsigned16(v), 2)
  }

  function PutChunks(data: seq<byte>): seq<byte>
    decreases |data|
  {
    if data == [] then PutUb4(0)
    else
      var n := if |data| < CHUNK_SIZE then |data| else CHUNK_SIZE;
      PutUb4(n) + data[..n] + PutChunks(data[n..])
  }

  function PutBytes(field: Option<seq<byte>>): seq<byte> {
    match field
    case None => [NULL_INDICATOR]
    case Some(data) =>
      if |data| <= MAX_SHORT_LENGTH then [|data|] + data
      else [LONG_INDICATOR] + PutChunks(data)
  }

  function PutFields(fields: seq<Option<seq<byte>>>): seq<byte> {
    if fields == [] then [] else PutBytes(fields[0]) + PutFields(fields[1..])
  }

  // ---- Reading ----------------------------------------------------------

  function Fail<T>(e: Error, rest: seq<byte>): Read<T> {
    Read(Failure(e), rest)
  }

  function TakeBytes(s: seq<byte>, n: nat): (r: Read<seq<byte>>)
    ensures |r.rest| <= |s|
  {
    if |s| < n then Fail(BufferUnderflow(n, |s|), s) else Read(Success(s[..n]), s[n..])
  }

  function TakeWord(s: seq<byte>, n: nat): (r: Read<nat>)
    ensures |r.rest| <= |s| && (r.answer.Success? && n > 0 ==> |r.rest| < |s|)
  {
    if |s| < n then Fail(BufferUnderflow(n, |s|), s) else Read(Success(FromBigEndian(s[..n])), s[n..])
  }

  // The integer forms: a length byte (its high bit ignored), then that many
  // bytes, where the field width and the code decide which lengths exist.
  function TakeUb2(s: seq<byte>): Read<nat> {
    if s == [] then Fail(BufferUnderflow(1, 0), s)
    else
      var n := s[0] % 128;
      if n <= 2 then TakeWord(s[1..], n) else Fail(InvalidLengthIndicator(n), s[1..])
  }

  function TakeUb4(s: seq<byte>): Read<nat> {
    if s == [] then Fail(BufferUnderflow(1, 0), s)
    else
      var n := s[0] % 128;
      if n <= 4 then TakeWord(s[1..], n) else Fail(InvalidLengthIndicator(n), s[1..])
  }

  // Lengths 5 to 7 announce a second length byte, which no writer here emits.
  function TakeUb8(s: seq<byte>): Read<nat> {
    if s == [] then Fail(BufferUnderflow(1, 0), s)
    else
      var n := s[0] % 128;
      if n <= 4 || n == 8 then TakeWord(s[1..], n)
      else if n > 8 then Fail(InvalidLengthIndicator(n), s[1..])
      else if |s| == 1 then Fail(BufferUnderflow(1, 0), s[1..])
      else
        var wide := TakeWord(s[2..], s[1] % 128);
        if wide.answer.Success? then
          Read(Success(wide.answer.value % 0x1_0000_0000_0000_0000), wide.rest)
        else wide
  }

  function TakeSb2(s: seq<byte>): Read<int> {
    if s == [] then Fail(BufferUnderflow(1, 0), s)
    else
      var n := s[0] % 128;
      if n > 2 then Fail(InvalidLengthIndicator(n), s[1..])
      else
        var word := TakeWord(s[1..], n);
        if word.answer.Failure? then Read(Failure(word.answer.error), word.rest)
        else
          var v := word.answer.value;
          Read(Success(if n == 1 && v >= 128 then v - 256 else if n == 2 then Signed16(v) else v), word.rest)
  }

  // `wide` chunks carry a ub4 length, the others a single length byte.
  function TakeChunkLength(s: seq<byte>, wide: bool): (r: Read<nat>)
    ensures r.answer.Success? ==> |r.rest| < |s|
    ensures |r.rest| <= |s|
  {
    if wide then TakeUb4(s) else TakeWord(s, 1)
  }

  function TakeChunks(s: seq<byte>, wide: bool): Read<seq<byte>>
    decreases |s|
  {
    var length := TakeChunkLength(s, wide);
    if length.answer.Failure? then Read(Failure(length.answer.error), length.rest)
    else if length.answer.value == 0 then Read(Success([]), length.rest)
    else
      var chunk := TakeBytes(length.rest, length.answer.value);
      if chunk.answer.Failure? then chunk
      else
        var more := TakeChunks(chunk.rest, wide);
        if more.answer.Failure? then more
        else Read(Success(chunk.answer.value + more.answer.value), more.rest)
  }

  // A read whose value is continued by `head`.
  function Prepend(head: seq<byte>, r: Read<seq<byte>>): Read<seq<byte>> {
    if r.answer.Failure? then r else Read(Success(head + r.answer.value), r.rest)
  }

  function TakeSome(r: Read<seq<byte>>): Read<Option<seq<byte>>> {
    if r.answer.Failure? then Read(Failure(r.answer.error), r.rest)
    else Read(Success(Some(r.answer.value)), r.rest)
  }

  function TakeField(s: seq<byte>, wide: bool): Read<Option<seq<byte>>> {
    if s == [] then Fail(BufferUnderflow(1, 0), s)
    else if s[0] == NULL_INDICATOR then Read(Success(None), s[1..])
    else if s[0] == LONG_INDICATOR then TakeSome(TakeChunks(s[1..], wide))
    else if s[0] != ESCAPE_CHAR then TakeSome(TakeBytes(s[1..], s[0]))
    else if |s| == 1 then Fail(BufferUnderflow(1, 0), [])
    else TakeSome(TakeBytes(s[2..], s[1]))
  }

  function TakeFields(s: seq<byte>, n: nat): Read<seq<Option<seq<byte>>>>
    decreases n
  {
    if n == 0 then Read(Success([]), s)
    else
      var first := TakeField(s, true);
      if first.answer.Failure? then Read(Failure(first.answer.error), first.rest)
      else
        var more := TakeFields(first.rest, n - 1);
        if more.answer.Failure? then more
        else Read(Success([first.answer.value] + more.answer.value), more.rest)
  }

  // ---- Round trips --------------------------------------------------------

  lemma TakePutWord(v: nat, n: nat, suffix: seq<byte>)
    requires v < Pow(256, n)
    ensures TakeWord(BigEndian(v, n) + suffix, n) == Read(Success(v), suffix)
  {
    BigEndianInverts(v, n);
    var s := BigEndian(v, n) + suffix;
    assert s[..n] == BigEndian(v, n) && s[n..] == suffix;
  }

  lemma OneByteWord(v: byte, suffix: seq<byte>)
    ensures TakeWord([v] + suffix, 1) == Read(Success(v as nat), suffix)
    ensures TakeWord(suffix, 0) == Read(Success(0), suffix)
  {
    FromBigEndianWords([v]);
    assert ([v] + suffix)[..1] == [v];
  }

  // ub2, ub4 and ub8 invert over their whole range and take nothing of what follows.
  lemma TakePutUb2(v: nat, suffix: seq<byte>)
    requires v < 65536
    ensures TakeUb2(PutUb2(v) + suffix) == Read(Success(v), suffix)
    ensures TakeUb4(PutUb2(v) + suffix) == Read(Success(v), suffix)
    ensures TakeUb8(PutUb2(v) + suffix) == Read(Success(v), suffix)
  {
    Powers256();
    var s := PutUb2(v) + suffix;
    if v <= 255 {
      OneByteWord(v, suffix);
      assert v != 0 ==> s[1..] == [v] + suffix;
      assert v == 0 ==> s[1..] == suffix;
    } else {
      TakePutWord(v, 2, suffix);
      assert s[1..] == BigEndian(v, 2) + suffix;
    }
  }

  lemma TakePutUb4(v: nat, suffix: seq<byte>)
    requires v < 0x1_0000_0000
    ensures TakeUb4(PutUb4(v) + suffix) == Read(Success(v), suffix)
    ensures TakeUb8(PutUb4(v) + suffix) == Read(Success(v), suffix)
  {
    Powers256();
    if v <= 65535 {
      TakePutUb2(v, suffix);
    } else {
      TakePutWord(v, 4, suffix);
      assert (PutUb4(v) + suffix)[1..] == BigEndian(v, 4) + suffix;
    }
  }

  lemma TakePutUb8(v: nat, suffix: seq<byte>)
    requires v < 0x1_0000_0000_0000_0000
    ensures TakeUb8(PutUb8(v) + suffix) == Read(Success(v), suffix)
  {
    Powers256();
    if v <= 0xFFFF_FFFF {
      TakePutUb4(v, suffix);
    } else {
      TakePutWord(v, 8, suffix);
      assert (PutUb8(v) + suffix)[1..] == BigEndian(v, 8) + suffix;
    }
  }

  lemma TakeShortSb2(length: byte, m: byte, suffix: seq<byte>)
    requires length % 128 == 1 && m < 128
    ensures TakeSb2([length, m] + suffix) == Read(Success(m as int), suffix)
  {
    OneByteWord(m, suffix);
    assert ([length, m] + suffix)[1..] == [m] + suffix;
  }

  lemma TakeLongSb2(v: int, suffix: seq<byte>)
    requires -32768 <= v < 32768
    ensures TakeSb2([0x82] + BigEndian(Unsigned16(v), 2) + suffix) == Read(Success(v), suffix)
  {
    Powers256();
    TakePutWord(Unsigned16(v), 2, suffix);
    assert ([0x82] + BigEndian(Unsigned16(v), 2) + suffix)[1..] == BigEndian(Unsigned16(v), 2) + suffix;
  }

  // sb2 writes small negatives as a sign-marked magnitude that its reader takes
  // for a positive number: it inverts exactly outside -127..-1.
  lemma TakePutSb2(v: int, suffix: seq<byte>)
    requires -32768 <= v < 32768
    ensures TakeSb2(PutSb2(v) + suffix) ==
      Read(Success(if -127 <= v < 0 then -v else v), suffix)
    ensures TakeSb2(PutSb2(v) + suffix) == Read(Success(v), suffix) <==> !(-127 <= v <= -1)
  {
    if v == 0 {
      assert ([0] + suffix)[1..] == suffix && suffix[..0] == [] && suffix[0..] == suffix;
    } else if -127 <= v <= 127 {
      TakeShortSb2(if v < 0 then 0x81 else 1, if v < 0 then -v else v, suffix);
    } else {
      TakeLongSb2(v, suffix);
    }
  }

  // One chunk of the loop, with everything after it in `tail`.
  lemma TakeChunkStep(s: seq<byte>, chunk: seq<byte>, tail: seq<byte>, after: seq<byte>)
    requires chunk != [] && after == chunk + tail
    requires TakeUb4(s) == Read(Success(|chunk|), after)
    requires TakeChunks(tail, true).answer.Success?
    ensures TakeChunks(s, true) ==
      Read(Success(chunk + TakeChunks(tail, true).answer.value), TakeChunks(tail, true).rest)
  {
    assert after[..|chunk|] == chunk && after[|chunk|..] == tail;
  }

  lemma Regroup(a: seq<byte>, b: seq<byte>, c: seq<byte>, d: seq<byte>)
    ensures a + b + c + d == a + (b + (c + d))
  {
  }

  lemma TakeChunksEnd(suffix: seq<byte>)
    ensures TakeChunks(PutUb4(0) + suffix, true) == Read(Success([]), suffix)
  {
    TakePutUb4(0, suffix);
  }

  lemma PutChunksStep(data: seq<byte>, n: nat)
    requires 0 < n <= |data| && n == if |data| < CHUNK_SIZE then |data| else CHUNK_SIZE
    ensures PutChunks(data) == PutUb4(n) + data[..n] + PutChunks(data[n..])
  {
  }

  lemma {:induction false} TakePutChunks(data: seq<byte>, suffix: seq<byte>)
    ensures TakeChunks(PutChunks(data) + suffix, true) == Read(Success(data), suffix)
    decreases |data|
  {
    if data == [] {
      TakeChunksEnd(suffix);
    } else {
      var n := if |data| < CHUNK_SIZE then |data| else CHUNK_SIZE;
      var more := PutChunks(data[n..]);
      TakePutChunks(data[n..], suffix);
      var tail, after := more + suffix, data[..n] + (more + suffix);
      TakePutUb4(n, after);
      TakeChunkStep(PutUb4(n) + after, data[..n], tail, after);
      PutChunksStep(data, n);
      Regroup(PutUb4(n), data[..n], more, suffix);
      assert data[..n] + data[n..] == data;
    }
  }

  lemma TakeLongField(chunks: seq<byte>, suffix: seq<byte>)
    ensures TakeField([LONG_INDICATOR] + chunks + suffix, true) == TakeSome(TakeChunks(chunks + suffix, true))
  {
    assert ([LONG_INDICATOR] + chunks + suffix)[1..] == chunks + suffix;
  }

  lemma PrependTwice(a: seq<byte>, b: seq<byte>, r: Read<seq<byte>>)
    ensures Prepend([], r) == r && Prepend(a, Prepend(b, r)) == Prepend(a + b, r)
  {
    if r.answer.Success? {
      assert a + (b + r.answer.value) == a + b + r.answer.value;
      assert [] + r.answer.value == r.answer.value;
    }
  }

  lemma TakePutBytes(field: Option<seq<byte>>, suffix: seq<byte>)
    ensures TakeField(PutBytes(field) + suffix, true) == Read(Success(field), suffix)
  {
    var s := PutBytes(field) + suffix;
    if field.Some? {
      var data := field.value;
      if |data| <= MAX_SHORT_LENGTH {
        assert s[1..] == data + suffix;
        assert (data + suffix)[..|data|] == data && (data + suffix)[|data|..] == suffix;
      } else {
        TakePutChunks(data, suffix);
        TakeLongField(PutChunks(data), suffix);
      }
    }
  }

  // ---- Fields that other writers cut up ----------------------------------------

  // Chunks of any sizes, each after its length, and an empty one at the end.
  function Chunked(pieces: seq<seq<byte>>, wide: bool): seq<byte>
    requires AllChunks(pieces, wide)
  {
    if pieces == [] then [0]
    else (if wide then PutUb4(|pieces[0]|) else [|pieces[0]|]) + pieces[0] + Chunked(pieces[1..], wide)
  }

  predicate AllChunks(pieces: seq<seq<byte>>, wide: bool) {
    forall k | 0 <= k < |pieces| :: 1 <= |pieces[k]| <= if wide then 0xFFFF_FFFF else 255
  }

  function Joined(pieces: seq<seq<byte>>): seq<byte> {
    if pieces == [] then [] else pieces[0] + Joined(pieces[1..])
  }

  lemma ChunkLengthReadsBack(n: nat, wide: bool, suffix: seq<byte>)
    requires n <= if wide then 0xFFFF_FFFF else 255
    ensures TakeChunkLength((if wide then PutUb4(n) else [n]) + suffix, wide) == Read(Success(n), suffix)
  {
    if wide {
      TakePutUb4(n, suffix);
    } else {
      OneByteWord(n, suffix);
    }
  }

  lemma OneChunkReadsBack(s: seq<byte>, chunk: seq<byte>, tail: seq<byte>, wide: bool, more: seq<byte>, rest: seq<byte>)
    requires chunk != [] && TakeChunkLength(s, wide) == Read(Success(|chunk|), chunk + tail)
    requires TakeChunks(tail, wide) == Read(Success(more), rest)
    ensures TakeChunks(s, wide) == Read(Success(chunk + more), rest)
  {
    assert (chunk + tail)[..|chunk|] == chunk && (chunk + tail)[|chunk|..] == tail;
    assert TakeBytes(chunk + tail, |chunk|) == Read(Success(chunk), tail);
  }

  lemma ChunkedFront(pieces: seq<seq<byte>>, wide: bool, suffix: seq<byte>)
    requires AllChunks(pieces, wide) && pieces != []
    ensures AllChunks(pieces[1..], wide) && 1 <= |pieces[0]| <= if wide then 0xFFFF_FFFF else 255
    ensures Chunked(pieces, wide) + suffix ==
      (if wide then PutUb4(|pieces[0]|) else [|pieces[0]|]) + (pieces[0] + (Chunked(pieces[1..], wide) + suffix))
  {
    var length := if wide then PutUb4(|pieces[0]|) else [|pieces[0]|];
    Regroup(length, pieces[0], Chunked(pieces[1..], wide), suffix);
  }

  // However a long field is cut up, in either form, it reads back whole.
  lemma {:induction false} AnyChunksReadBack(pieces: seq<seq<byte>>, wide: bool, suffix: seq<byte>)
    requires AllChunks(pieces, wide)
    ensures TakeChunks(Chunked(pieces, wide) + suffix, wide) == Read(Success(Joined(pieces)), suffix)
    decreases |pieces|
  {
    if pieces == [] {
      assert PutUb4(0) == [0];
      ChunkLengthReadsBack(0, wide, suffix);
    } else {
      ChunkedFront(pieces, wide, suffix);
      var chunk, tail := pieces[0], Chunked(pieces[1..], wide) + suffix;
      var length := if wide then PutUb4(|chunk|) else [|chunk|];
      AnyChunksReadBack(pieces[1..], wide, suffix);
      ChunkLengthReadsBack(|chunk|, wide, chunk + tail);
      OneChunkReadsBack(length + (chunk + tail), chunk, tail, wide, Joined(pieces[1..]), suffix);
    }
  }

  lemma LongFieldsReadBack(pieces: seq<seq<byte>>, wide: bool, suffix: seq<byte>)
    requires AllChunks(pieces, wide)
    ensures TakeField([254] + Chunked(pieces, wide) + suffix, wide) == Read(Success(Some(Joined(pieces))), suffix)
  {
    AnyChunksReadBack(pieces, wide, suffix);
    assert ([254] + Chunked(pieces, wide) + suffix)[1..] == Chunked(pieces, wide) + suffix;
  }

  // A short field may be given its length a second time after an escape byte.
  lemma EscapedFieldsReadBack(data: seq<byte>, wide: bool, suffix: seq<byte>)
    requires |data| <= 255
    ensures TakeField([253, |data|] + data + suffix, wide) == Read(Success(Some(data)), suffix)
  {
    var s := [253, |data|] + data + suffix;
    assert s[2..] == data + suffix && (data + suffix)[..|data|] == data && (data + suffix)[|data|..] == suffix;
  }

  // ---- Integers that are malformed ----------------------------------------------

  // The integer fields fail exactly on an empty input, on a length the field
  // has no room for, and on too few bytes after it.
  lemma MalformedIntegers(s: seq<byte>)
    ensures s == [] ==>
      TakeUb2(s).answer == TakeUb4(s).answer == TakeUb8(s).answer == Failure(BufferUnderflow(1, 0))
      && TakeSb2(s).answer == Failure(BufferUnderflow(1, 0))
    ensures s != [] ==>
      var n := s[0] % 128;
      && (TakeUb2(s).answer.Success? <==> n <= 2 && |s| > n)
      && (TakeSb2(s).answer.Success? <==> n <= 2 && |s| > n)
      && (TakeUb4(s).answer.Success? <==> n <= 4 && |s| > n)
      && (n > 2 ==> TakeUb2(s).answer == Failure(InvalidLengthIndicator(n)))
      && (n > 2 ==> TakeSb2(s).answer == Failure(InvalidLengthIndicator(n)))
      && (n > 4 ==> TakeUb4(s).answer == Failure(InvalidLengthIndicator(n)))
      && (n > 8 ==> TakeUb8(s).answer == Failure(InvalidLengthIndicator(n)))
      && (|s| <= n <= 2 ==> TakeUb2(s).answer == Failure(BufferUnderflow(n, |s| - 1)))
      && (|s| <= n <= 2 ==> TakeSb2(s).answer == Failure(BufferUnderflow(n, |s| - 1)))
      && (|s| <= n <= 4 ==> TakeUb4(s).answer == TakeUb8(s).answer == Failure(BufferUnderflow(n, |s| - 1)))
  {
  }

  // An eight-byte integer may carry its length in a second byte; what does not
  // fit into 64 bits is lost.
  lemma SecondLengthByte(n: byte, m: byte, v: nat, suffix: seq<byte>)
    requires 5 <= n % 128 <= 7 && v < Pow(256, m % 128)
    ensures TakeUb8([n, m] + BigEndian(v, m % 128) + suffix) == Read(Success(v % 0x1_0000_0000_0000_0000), suffix)
  {
    var s := [n, m] + BigEndian(v, m % 128) + suffix;
    TakePutWord(v, m % 128, suffix);
    assert s[2..] == BigEndian(v, m % 128) + suffix;
  }

  // Every other length is taken at its word, its high bit aside.
  lemma {:induction false} PlainIntegers(n: byte, v: nat, suffix: seq<byte>)
    requires v < Pow(256, n % 128)
    ensures var s := [n] + BigEndian(v, n % 128) + suffix;
      && (n % 128 <= 2 ==> TakeUb2(s) == Read(Success(v), suffix))
      && (n % 128 <= 4 ==> TakeUb4(s) == Read(Success(v), suffix))
      && (n % 128 <= 4 || n % 128 == 8 ==> TakeUb8(s) == Read(Success(v), suffix))
      && (n % 128 == 1 ==> TakeSb2(s) == Read(Success(if v < 128 then v else v - 256), suffix))
      && (n % 128 == 2 ==> TakeSb2(s) == Read(Success(if v < 32768 then v else v - 65536), suffix))
  {
    var s := [n] + BigEndian(v, n % 128) + suffix;
    TakePutWord(v, n % 128, suffix);
    assert s[1..] == BigEndian(v, n % 128) + suffix;
  }

  // ---- The forms that are written ------------------------------------------------

  // A length byte, and no more bytes of the value than one, two, four or eight
  // must be; all three widths write one form.
  lemma {:induction false} IntegersAreShortest(v: nat)
    requires v < 0x1_0000_0000_0000_0000
    ensures var s := PutUb8(v);
      && s != [] && s[0] as int == |s| - 1 && FromBigEndian(s[1..]) == v
      && |s| == if v == 0 then 1 else if v < 256 then 2 else if v < 65536 then 3 else if v < 0x1_0000_0000 then 5 else 9
    ensures v < 65536 ==> PutUb2(v) == PutUb8(v)
    ensures v < 0x1_0000_0000 ==> PutUb4(v) == PutUb8(v)
  {
    var s := PutUb8(v);
    Powers256();
    if v == 0 {
      assert s[1..] == [];
    } else if v < 256 {
      assert s[1..] == [v];
      FromBigEndianWords([v]);
    } else {
      var n := if v < 65536 then 2 else if v < 0x1_0000_0000 then 4 else 8;
      BigEndianInverts(v, n);
      assert s[1..] == BigEndian(v, n);
    }
  }

  // A signed integer of one byte is written as its magnitude, with the high bit
  // of the length for a sign; any other in two's complement.
  lemma {:induction false} SignedForm(v: int)
    requires -32768 <= v < 32768
    ensures v == 0 ==> PutSb2(v) == [0]
    ensures 1 <= v <= 127 ==> PutSb2(v) == [1, v]
    ensures -127 <= v <= -1 ==> PutSb2(v) == [129, -v]
    ensures v < -127 || v > 127 ==> var s := PutSb2(v);
      |s| == 3 && s[0] == 130 && 256 * s[1] as int + s[2] as int == if v < 0 then v + 65536 else v
  {
    if v < -127 || v > 127 {
      Powers256();
      BigEndianInverts(Unsigned16(v), 2);
      FromBigEndianWords(BigEndian(Unsigned16(v), 2));
    }
  }

  // All pieces full but the last.
  predicate CutFull(pieces: seq<seq<byte>>) {
    forall k | 0 <= k < |pieces| :: 1 <= |pieces[k]| <= 32767 && (k < |pieces| - 1 ==> |pieces[k]| == 32767)
  }

  lemma JoinedHoldsFirst(pieces: seq<seq<byte>>)
    ensures pieces != [] ==> |Joined(pieces)| >= |pieces[0]|
  {
  }

  lemma {:induction false} ChunksAreFull(data: seq<byte>) returns (pieces: seq<seq<byte>>)
    ensures CutFull(pieces) && Joined(pieces) == data && AllChunks(pieces, true)
    ensures PutChunks(data) == Chunked(pieces, true)
    decreases |data|
  {
    if data == [] {
      pieces := [];
    } else {
      var n := if |data| < 32767 then |data| else 32767;
      var rest := ChunksAreFull(data[n..]);
      pieces := [data[..n]] + rest;
      JoinedHoldsFirst(rest);
      PutChunksStep(data, n);
      assert pieces[1..] == rest;
      assert data[..n] + data[n..] == data;
    }
  }

  // What is written for a field: a mark for none, up to 252 bytes after their
  // length, and more of them cut into pieces of 32767.
  lemma {:induction false} FieldForm(data: seq<byte>) returns (pieces: seq<seq<byte>>)
    ensures PutBytes(None) == [255]
    ensures |data| <= 252 ==> PutBytes(Some(data)) == [|data|] + data
    ensures CutFull(pieces) && Joined(pieces) == data && AllChunks(pieces, true)
    ensures |data| > 252 ==> PutBytes(Some(data)) == [254] + Chunked(pieces, true)
  {
    pieces := ChunksAreFull(data);
  }

  // ---- Fields that are cut short --------------------------------------------------

  lemma {:induction false} ShortFieldsFail(s: seq<byte>, wide: bool)
    requires s != [] && s[0] < 254
    ensures s[0] < 253 ==> (TakeField(s, wide).answer.Success? <==> |s| > s[0] as int)
    ensures s[0] < 253 && |s| <= s[0] as int ==> TakeField(s, wide).answer == Failure(BufferUnderflow(s[0] as int, |s| - 1))
    ensures s[0] == 253 ==> (TakeField(s, wide).answer.Success? <==> |s| > 1 && |s| > 1 + s[1] as int)
    ensures s[0] == 253 && 1 < |s| <= 1 + s[1] as int ==>
      TakeField(s, wide).answer == Failure(BufferUnderflow(s[1] as int, |s| - 2))
  {
  }

  lemma {:induction false} FirstChunkThenFailure(s: seq<byte>, chunk: seq<byte>, tail: seq<byte>, wide: bool)
    requires chunk != [] && TakeChunkLength(s, wide) == Read(Success(|chunk|), chunk + tail)
    requires TakeChunks(tail, wide).answer.Failure?
    ensures TakeChunks(s, wide).answer == TakeChunks(tail, wide).answer
  {
    assert (chunk + tail)[..|chunk|] == chunk && (chunk + tail)[|chunk|..] == tail;
    assert TakeBytes(chunk + tail, |chunk|) == Read(Success(chunk), tail);
  }

  // The chunks without their end, and then one that announces `n` bytes.
  function Interrupted(pieces: seq<seq<byte>>, wide: bool, n: nat, left: seq<byte>): seq<byte>
    requires AllChunks(pieces, wide) && n <= if wide then 0xFFFF_FFFF else 255
  {
    if pieces == [] then (if wide then PutUb4(n) else [n]) + left
    else (if wide then PutUb4(|pieces[0]|) else [|pieces[0]|]) + (pieces[0] + Interrupted(pieces[1..], wide, n, left))
  }

  // A chunk that announces more than there is fails, whatever came before it.
  lemma {:induction false} ChunksBreak(pieces: seq<seq<byte>>, wide: bool, n: nat, left: seq<byte>)
    requires AllChunks(pieces, wide) && |left| < n <= if wide then 0xFFFF_FFFF else 255
    ensures TakeChunks(Interrupted(pieces, wide, n, left), wide).answer == Failure(BufferUnderflow(n, |left|))
    decreases |pieces|
  {
    if pieces == [] {
      ChunkLengthReadsBack(n, wide, left);
    } else {
      var chunk, tail := pieces[0], Interrupted(pieces[1..], wide, n, left);
      ChunksBreak(pieces[1..], wide, n, left);
      ChunkLengthReadsBack(|chunk|, wide, chunk + tail);
      FirstChunkThenFailure(Interrupted(pieces, wide, n, left), chunk, tail, wide);
    }
  }

  lemma {:induction false} BrokenChunksFail(pieces: seq<seq<byte>>, wide: bool, n: nat, left: seq<byte>)
    requires AllChunks(pieces, wide) && |left| < n <= if wide then 0xFFFF_FFFF else 255
    ensures TakeField([254] + Interrupted(pieces, wide, n, left), wide).answer == Failure(BufferUnderflow(n, |left|))
  {
    ChunksBreak(pieces, wide, n, left);
    assert ([254] + Interrupted(pieces, wide, n, left))[1..] == Interrupted(pieces, wide, n, left);
  }

  // ---- Lists of fields ------------------------------------------------------------

  lemma {:induction false} FieldsOneMore(s: seq<byte>, field: Option<seq<byte>>, tail: seq<byte>,
    more: seq<Option<seq<byte>>>, rest: seq<byte>)
    requires TakeField(s, true) == Read(Success(field), tail) && TakeFields(tail, |more|) == Read(Success(more), rest)
    ensures TakeFields(s, |more| + 1) == Read(Success([field] + more), rest)
  {
  }

  // Fields are self-delimiting: any list reads back whatever follows it.
  lemma {:induction false} FieldsAreSelfDelimiting(fields: seq<Option<seq<byte>>>, suffix: seq<byte>)
    ensures TakeFields(PutFields(fields) + suffix, |fields|) == Read(Success(fields), suffix)
  {
    if fields != [] {
      var tail := PutFields(fields[1..]) + suffix;
      assert PutFields(fields) + suffix == PutBytes(fields[0]) + tail;
      TakePutBytes(fields[0], tail);
      FieldsAreSelfDelimiting(fields[1..], suffix);
      FieldsOneMore(PutFields(fields) + suffix, fields[0], tail, fields[1..], suffix);
      assert [fields[0]] + fields[1..] == fields;
    }
  }

  // Hence no encoded list is a prefix of another one of the same length.
  lemma FieldListsAreUnambiguous(a: seq<Option<seq<byte>>>, b: seq<Option<seq<byte>>>, x: seq<byte>, y: seq<byte>)
    requires |a| == |b| && PutFields(a) + x == PutFields(b) + y
    ensures a == b && x == y
  {
    FieldsAreSelfDelimiting(a, x);
    FieldsAreSelfDelimiting(b, y);
  }

  predicate IsSuffix(rest: seq<byte>, s: seq<byte>) {
    |rest| <= |s| && rest == s[|s| - |rest|..]
  }

  lemma SuffixOfSuffix(a: seq<byte>, b: seq<byte>, c: seq<byte>)
    requires IsSuffix(a, b) && IsSuffix(b, c)
    ensures IsSuffix(a, c)
  {
  }

  lemma LengthReadsForward(s: seq<byte>, wide: bool)
    ensures IsSuffix(TakeChunkLength(s, wide).rest, s)
  {
  }

  // A read that consumed a prefix of its input and more than it returned.
  predicate ReadsForward(s: seq<byte>, r: Read<seq<byte>>) {
    IsSuffix(r.rest, s) && (r.answer.Success? ==> |r.answer.value| < |s| - |r.rest|)
  }

  lemma ChunkReadsForward(s: seq<byte>, wide: bool, chunk: Read<seq<byte>>, more: Read<seq<byte>>)
    requires var length := TakeChunkLength(s, wide);
      length.answer.Success? && chunk == TakeBytes(length.rest, length.answer.value)
    requires chunk.answer.Success? ==> ReadsForward(chunk.rest, more)
    ensures ReadsForward(s, if chunk.answer.Success? then Prepend(chunk.answer.value, more) else chunk)
  {
    LengthReadsForward(s, wide);
    var after := TakeChunkLength(s, wide).rest;
    SuffixOfSuffix(chunk.rest, after, s);
    if chunk.answer.Success? {
      SuffixOfSuffix(more.rest, chunk.rest, s);
    }
  }

  lemma {:induction false} ChunksReadForward(s: seq<byte>, wide: bool)
    ensures ReadsForward(s, TakeChunks(s, wide))
    decreases |s|
  {
    var length := TakeChunkLength(s, wide);
    LengthReadsForward(s, wide);
    if length.answer.Success? && length.answer.value > 0 {
      var chunk := TakeBytes(length.rest, length.answer.value);
      if chunk.answer.Success? {
        ChunksReadForward(chunk.rest, wide);
      }
      ChunkReadsForward(s, wide, chunk, TakeChunks(chunk.rest, wide));
    }
  }

  lemma BytesReadForward(s: seq<byte>, skip: nat, n: nat)
    requires skip <= |s|
    ensures var r := TakeSome(TakeBytes(s[skip..], n));
      && IsSuffix(r.rest, s) && |r.rest| <= |s| - skip
      && (r.answer.Success? ==> r.answer.value.Some? && |r.answer.value.value| == |s| - skip - |r.rest|)
  {
  }

  lemma LongReadsForward(s: seq<byte>, wide: bool)
    requires s != []
    ensures var r := TakeSome(TakeChunks(s[1..], wide));
      && IsSuffix(r.rest, s)
      && (r.answer.Success? ==>
            |r.rest| < |s| && r.answer.value.Some? && |r.answer.value.value| < |s| - |r.rest|)
  {
    ChunksReadForward(s[1..], wide);
    SuffixOfSuffix(TakeChunks(s[1..], wide).rest, s[1..], s);
  }

  // Whatever the bytes are, a field read ends, and no value is longer than
  // what was consumed for it.
  lemma FieldsReadForward(s: seq<byte>, wide: bool)
    ensures var r := TakeField(s, wide);
      && IsSuffix(r.rest, s)
      && (r.answer.Success? ==> |r.rest| < |s|)
      && (r.answer.Success? && r.answer.value.Some? ==> |r.answer.value.value| < |s| - |r.rest|)
  {
    if s != [] {
      if s[0] == LONG_INDICATOR {
        LongReadsForward(s, wide);
      } else if s[0] != ESCAPE_CHAR {
        BytesReadForward(s, 1, s[0]);
      } else if |s| > 1 {
        BytesReadForward(s, 2, s[1]);
      }
    }
  }
}

/** The reader and writer objects, each operation proved against the codec. */
module Buffers {
  import opened Wrappers
  import opened Machine
  import opened TtcFields

  class WriteBuffer {
    var data: seq<byte>

    constructor ()
      ensures data == []
    {
      data := [];
    }

    method WriteU8(value: byte)
      modifies this
      ensures data == old(data) + [value]
    {
      data := data + [value];
    }

    method WriteSlice(bytes: seq<byte>)
      modifies this
      ensures data == old(data) + bytes
    {
      data := data + bytes;
    }

    method WriteUb2(value: nat)
      requires value < 65536
      modifies this
      ensures data == old(data) + PutUb2(value)
    {
      if value == 0 {
        WriteU8(0);
      } else if value <= 255 {
        WriteU8(1);
        WriteU8(value);
      } else {
        WriteU8(2);
        WriteSlice(BigEndian(value, 2));
      }
    }

    method WriteSb2(value: int)
      requires -32768 <= value < 32768
      modifies this
      ensures data == old(data) + PutSb2(value)
    {
      if value == 0 {
        WriteU8(0);
      } else if 0 < value <= 127 {
        WriteU8(1);
        WriteU8(value);
      } else if -127 <= value < 0 {
        WriteU8(0x81);
        WriteU8(-value);
      } else {
        WriteU8(0x82);
        WriteSlice(BigEndian(Unsigned16(value), 2));
      }
    }

    method WriteUb4(value: nat)
      requires value < 0x1_0000_0000
      modifies this
      ensures data == old(data) + PutUb4(value)
    {
      if value == 0 {
        WriteU8(0);
      } else if value <= 255 {
        WriteU8(1);
        WriteU8(value);
      } else if value <= 65535 {
        WriteU8(2);
        WriteSlice(BigEndian(value, 2));
      } else {
        WriteU8(4);
        WriteSlice(BigEndian(value, 4));
      }
    }

    method WriteUb8(value: nat)
      requires value < 0x1_0000_0000_0000_0000
      modifies this
      ensures data == old(data) + PutUb8(value)
    {
      if value <= 0xFFFF_FFFF {
        WriteUb4(value);
      } else {
        WriteU8(8);
        WriteSlice(BigEndian(value, 8));
      }
    }

    method WriteChunk(field: seq<byte>, offset: nat, n: nat)
      requires offset < |field|
      requires n == if |field| - offset < CHUNK_SIZE then |field| - offset else CHUNK_SIZE
      modifies this
      ensures old(data) + PutChunks(field[offset..]) == data + PutChunks(field[offset + n..])
    {
      PutChunksStep(field[offset..], n);
      assert field[offset..][..n] == field[offset..offset + n];
      assert field[offset..][n..] == field[offset + n..];
      var chunk := field[offset..offset + n];
      ghost var before, head, more := data, PutUb4(n), PutChunks(field[offset + n..]);
      WriteUb4(n);
      WriteSlice(chunk);
      Regroup(before, head, chunk, more);
      assert head + chunk + more == head + (chunk + more);
      assert before + (head + (chunk + more)) == before + head + chunk + more;
    }

    method WriteChunks(field: seq<byte>)
      modifies this
      ensures data == old(data) + PutChunks(field)
    {
      var offset, len := 0, |field|;
      ghost var done := data + PutChunks(field);
      assert field[0..] == field;
      while offset < len
        invariant offset <= len
        invariant done == data + PutChunks(field[offset..])
      {
        var n := if len - offset < CHUNK_SIZE then len - offset else CHUNK_SIZE;
        WriteChunk(field, offset, n);
        offset := offset + n;
      }
      WriteUb4(0);
    }

    method WriteLong(field: seq<byte>)
      modifies this
      ensures data == old(data) + ([LONG_INDICATOR] + PutChunks(field))
    {
      WriteU8(LONG_INDICATOR);
      WriteChunks(field);
    }

    method WriteBytesWithLength(bytes: Option<seq<byte>>)
      modifies this
      ensures data == old(data) + PutBytes(bytes)
    {
      if bytes.None? {
        WriteU8(NULL_INDICATOR);
        return;
      }
      var field := bytes.value;
      var len := |field|;
      if len == 0 {
        WriteU8(0);
      } else if len <= MAX_SHORT_LENGTH {
        WriteU8(len);
        WriteSlice(field);
      } else {
        WriteLong(field);
      }
    }
  }

  class ReadBuffer {
    const data: seq<byte>
    var pos: nat

    ghost predicate Valid()
      reads this
    {
      pos <= |data|
    }

    ghost function Rest(): seq<byte>
      requires Valid()
      reads this
    {
      data[pos..]
    }

    constructor (data: seq<byte>)
      ensures Valid() && Rest() == data && this.data == data
    {
      this.data, pos := data, 0;
    }

    method ReadBytes(n: nat) returns (r: Result<seq<byte>, Error>)
      requires Valid()
      modifies this
      ensures Valid() && Read(r, Rest()) == TakeBytes(old(Rest()), n)
    {
      if |data| - pos < n {
        return Failure(BufferUnderflow(n, |data| - pos));
      }
      r := Success(data[pos..pos + n]);
      assert Rest()[..n] == data[pos..pos + n] && Rest()[n..] == data[pos + n..];
      pos := pos + n;
    }

    method ReadWord(n: nat) returns (r: Result<nat, Error>)
      requires Valid()
      modifies this
      ensures Valid() && Read(r, Rest()) == TakeWord(old(Rest()), n)
    {
      if |data| - pos < n {
        return Failure(BufferUnderflow(n, |data| - pos));
      }
      r := Success(FromBigEndian(data[pos..pos + n]));
      assert Rest()[..n] == data[pos..pos + n] && Rest()[n..] == data[pos + n..];
      pos := pos + n;
    }

    method ReadU8() returns (r: Result<byte, Error>)
      requires Valid()
      modifies this
      ensures Valid()
      ensures old(Rest()) == [] ==> r == Failure(BufferUnderflow(1, 0)) && Rest() == []
      ensures old(Rest()) != [] ==> r == Success(old(Rest())[0]) && Rest() == old(Rest())[1..]
    {
      if pos == |data| {
        return Failure(BufferUnderflow(1, 0));
      }
      r := Success(data[pos]);
      assert Rest()[1..] == data[pos + 1..];
      pos := pos + 1;
    }

    method ReadUb2() returns (r: Result<nat, Error>)
      requires Valid()
      modifies this
      ensures Valid() && Read(r, Rest()) == TakeUb2(old(Rest()))
    {
      var length :- ReadU8();
      var n := length % 128;
      if n <= 2 {
        r := ReadWord(n);
      } else {
        r := Failure(InvalidLengthIndicator(n));
      }
    }

    method ReadUb4() returns (r: Result<nat, Error>)
      requires Valid()
      modifies this
      ensures Valid() && Read(r, Rest()) == TakeUb4(old(Rest()))
    {
      var length :- ReadU8();
      var n := length % 128;
      if n <= 4 {
        r := ReadWord(n);
      } else {
        r := Failure(InvalidLengthIndicator(n));
      }
    }

    method ReadUb8() returns (r: Result<nat, Error>)
      requires Valid()
      modifies this
      ensures Valid() && Read(r, Rest()) == TakeUb8(old(Rest()))
    {
      var length :- ReadU8();
      var n := length % 128;
      if n <= 4 || n == 8 {
        r := ReadWord(n);
      } else if n > 8 {
        r := Failure(InvalidLengthIndicator(n));
      } else {
        var inner :- ReadU8();
        assert Rest() == old(Rest())[2..];
        var bytes :- ReadBytes(inner % 128);
        var v := FoldBytes(bytes);
        r := Success(v);
      }
    }

    method ReadSb2() returns (r: Result<int, Error>)
      requires Valid()
      modifies this
      ensures Valid() && Read(r, Rest()) == TakeSb2(old(Rest()))
    {
      var length :- ReadU8();
      var n := length % 128;
      if n > 2 {
        return Failure(InvalidLengthIndicator(n));
      }
      var v :- ReadWord(n);
      r := Success(if n == 1 && v >= 128 then v - 256 else if n == 2 then Signed16(v) else v);
    }

    // Both CLR readers of the source: big chunks (`wide`) and one-byte chunks.
    method ReadBytesWithLength(wide: bool) returns (r: Result<Option<seq<byte>>, Error>)
      requires Valid()
      modifies this
      ensures Valid() && Read(r, Rest()) == TakeField(old(Rest()), wide)
    {
      var len :- ReadU8();
      if len == NULL_INDICATOR {
        return Success(None);
      }
      if len == LONG_INDICATOR {
        var result :- ReadChunks(wide);
        return Success(Some(result));
      }
      var actual := len;
      if len == ESCAPE_CHAR {
        actual :- ReadU8();
      }
      if actual == 0 {
        return Success(Some([]));
      }
      assert Rest() == old(Rest())[if len == ESCAPE_CHAR then 2 else 1..];
      var bytes :- ReadBytes(actual);
      r := Success(Some(bytes));
    }

    method ReadChunks(wide: bool) returns (r: Result<seq<byte>, Error>)
      requires Valid()
      modifies this
      ensures Valid() && Read(r, Rest()) == TakeChunks(old(Rest()), wide)
    {
      var result := [];
      PrependTwice([], [], TakeChunks(Rest(), wide));
      while true
        invariant Valid()
        invariant TakeChunks(old(Rest()), wide) == Prepend(result, TakeChunks(Rest(), wide))
        decreases |data| - pos
      {
        ghost var before := Rest();
        var n;
        if wide {
          n :- ReadUb4();
        } else {
          n :- ReadWord(1);
        }
        if n == 0 {
          assert result + [] == result;
          break;
        }
        var chunk :- ReadBytes(n);
        PrependTwice(result, chunk, TakeChunks(Rest(), wide));
        assert TakeChunks(before, wide) == Prepend(chunk, TakeChunks(Rest(), wide));
        result := result + chunk;
      }
      r := Success(result);
    }
  }

  // The shift-and-or loop of a 64-bit accumulator.
  method FoldBytes(bytes: seq<byte>) returns (v: nat)
    ensures v == FromBigEndian(bytes) % 0x1_0000_0000_0000_0000
  {
    v := 0;
    var i := 0;
    while i < |bytes|
      invariant 0 <= i <= |bytes|
      invariant v == FromBigEndian(bytes[..i]) % 0x1_0000_0000_0000_0000
    {
      assert bytes[..i + 1][..i] == bytes[..i];
      ShiftIn(FromBigEndian(bytes[..i]), bytes[i]);
      v := (v * 256 + bytes[i]) % 0x1_0000_0000_0000_0000;
      i := i + 1;
    }
    assert bytes[..|bytes|] == bytes;
  }

  lemma ShiftIn(v: nat, b: byte)
    ensures (v % 0x1_0000_0000_0000_0000 * 256 + b) % 0x1_0000_0000_0000_0000
         == (v * 256 + b) % 0x1_0000_0000_0000_0000
  {
    var m := 0x1_0000_0000_0000_0000;
    var q := v / m;
    assert v * 256 + b == (v % m * 256 + b) + m * (q * 256);
    AddMultiple(v % m * 256 + b, q * 256);
  }

  lemma {:induction false} AddMultiple(x: nat, k: nat)
    ensures (x + 0x1_0000_0000_0000_0000 * k) % 0x1_0000_0000_0000_0000 == x % 0x1_0000_0000_0000_0000
  {
    if k > 0 {
      AddMultiple(x, k - 1);
    }
  }
}
