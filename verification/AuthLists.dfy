/** The authentication key/value lists, in thin framing and in OCI framing. */
module AuthLists {
  import opened Wrappers
  import opened Machine
  import opened TtcFields
  import opened Buffers

  // A pair as it is written, and as it is read back.
  datatype Sent = Sent(key: seq<byte>, value: seq<byte>, flags: nat)

  datatype Pair = Pair(key: seq<byte>, value: seq<byte>)

  function Received(sent: seq<Sent>): (pairs: seq<Pair>)
    ensures |pairs| == |sent|
  {
    seq(|sent|, i requires 0 <= i < |sent| => Pair(sent[i].key, sent[i].value))
  }

  lemma ReceivedStep(sent: seq<Sent>)
    requires sent != []
    ensures Received(sent) == [Pair(sent[0].key, sent[0].value)] + Received(sent[1..])
  {
  }

  // ---- Thin framing --------------------------------------------------------------

  // The length goes out twice, both times as a single byte.
  function AuthString(s: seq<byte>): seq<byte> {
    if s == [] then [0] else [1, |s| % 256, |s| % 256] + s
  }

  function AuthPair(p: Sent): seq<byte>
    requires p.flags < 0x1_0000_0000
  {
    AuthString(p.key) + AuthString(p.value) + PutUb4(p.flags)
  }

  predicate Flagged(sent: seq<Sent>) {
    forall i | 0 <= i < |sent| :: sent[i].flags < 0x1_0000_0000
  }

  function AuthPairs(sent: seq<Sent>): seq<byte>
    requires Flagged(sent)
  {
    if sent == [] then [] else AuthPair(sent[0]) + AuthPairs(sent[1..])
  }

  method WriteAuthString(buf: WriteBuffer, s: seq<byte>)
    modifies buf
    ensures buf.data == old(buf.data) + AuthString(s)
  {
    if s == [] {
      buf.WriteU8(0);
      return;
    }
    buf.WriteU8(1);
    buf.WriteU8(|s| % 256);
    buf.WriteU8(|s| % 256);
    buf.WriteSlice(s);
  }

  method WriteAuthPair(buf: WriteBuffer, p: Sent)
    requires p.flags < 0x1_0000_0000
    modifies buf
    ensures buf.data == old(buf.data) + AuthPair(p)
  {
    WriteAuthString(buf, p.key);
    WriteAuthString(buf, p.value);
    buf.WriteUb4(p.flags);
  }

  function OrEmpty(field: Option<seq<byte>>): seq<byte> {
    if field.Some? then field.value else []
  }

  predicate Continuation(b: byte) {
    0x80 <= b <= 0xBF
  }

  // The bytes of the first character of well-formed UTF-8 (section 4 of
  // RFC 3629), or 0 if `s` starts with none.
  function CharacterLength(s: seq<byte>): (n: nat)
    ensures n <= |s|
  {
    if |s| >= 1 && s[0] < 0x80 then 1
    else if |s| < 2 || !Continuation(s[1]) then 0
    else if 0xC2 <= s[0] <= 0xDF then 2
    else if |s| < 3 || !Continuation(s[2]) then 0
    else if 0xE0 <= s[0] <= 0xEF && (s[0] == 0xE0 ==> s[1] >= 0xA0) && (s[0] == 0xED ==> s[1] < 0xA0) then 3
    else if |s| < 4 || !Continuation(s[3]) then 0
    else if 0xF0 <= s[0] <= 0xF4 && (s[0] == 0xF0 ==> s[1] >= 0x90) && (s[0] == 0xF4 ==> s[1] < 0x90) then 4
    else 0
  }

  predicate IsUtf8(s: seq<byte>)
    decreases |s|
  {
    s == [] || (CharacterLength(s) > 0 && IsUtf8(s[CharacterLength(s)..]))
  }

  // A field that must be text; its bytes are consumed even if they are not.
  function TakeText(s: seq<byte>): Read<Option<seq<byte>>> {
    var field := TakeField(s, true);
    if field.answer.Success? && !IsUtf8(OrEmpty(field.answer.value)) then Read(Failure(DataConversion), field.rest)
    else field
  }

  // A value of length zero has no bytes of its own at all.
  function TakeValue(s: seq<byte>, length: nat, wide: bool): Read<Option<seq<byte>>> {
    if length == 0 then Read(Success(None), s) else TakeField(s, wide)
  }

  // A pair with its flags, which the program reads and drops.
  function TakeSent(s: seq<byte>, wide: bool): Read<Sent> {
    var keyLength := TakeUb4(s);
    if keyLength.answer.Failure? then Read(Failure(keyLength.answer.error), keyLength.rest)
    else
      var key := TakeText(keyLength.rest);
      if key.answer.Failure? then Read(Failure(key.answer.error), key.rest)
      else
        var valueLength := TakeUb4(key.rest);
        if valueLength.answer.Failure? then Read(Failure(valueLength.answer.error), valueLength.rest)
        else
          var value := TakeValue(valueLength.rest, valueLength.answer.value, wide);
          if value.answer.Failure? then Read(Failure(value.answer.error), value.rest)
          else
            var flags := TakeUb4(value.rest);
            if flags.answer.Failure? then Read(Failure(flags.answer.error), flags.rest)
            else Read(Success(Sent(OrEmpty(key.answer.value), OrEmpty(value.answer.value), flags.answer.value)), flags.rest)
  }

  function TakePair(s: seq<byte>, wide: bool): Read<Pair> {
    var sent := TakeSent(s, wide);
    if sent.answer.Failure? then Read(Failure(sent.answer.error), sent.rest)
    else Read(Success(Pair(sent.answer.value.key, sent.answer.value.value)), sent.rest)
  }

  function TakePairs(s: seq<byte>, n: nat, wide: bool): Read<seq<Pair>>
    decreases n
  {
    if n == 0 then Read(Success([]), s)
    else
      var first := TakePair(s, wide);
      if first.answer.Failure? then Read(Failure(first.answer.error), first.rest)
      else Onto([first.answer.value], TakePairs(first.rest, n - 1, wide))
  }

  function Onto(head: seq<Pair>, r: Read<seq<Pair>>): Read<seq<Pair>> {
    if r.answer.Failure? then r else Read(Success(head + r.answer.value), r.rest)
  }

  lemma OntoTwice(a: seq<Pair>, b: seq<Pair>, r: Read<seq<Pair>>)
    ensures Onto(a, Onto(b, r)) == Onto(a + b, r)
    ensures Onto([], r) == r
  {
    if r.answer.Success? {
      assert a + (b + r.answer.value) == a + b + r.answer.value;
      assert [] + r.answer.value == r.answer.value;
    }
  }

  method ReadText(buf: ReadBuffer) returns (r: Result<Option<seq<byte>>, Error>)
    requires buf.Valid()
    modifies buf
    ensures buf.Valid() && Read(r, buf.Rest()) == TakeText(old(buf.Rest()))
  {
    var field :- buf.ReadBytesWithLength(true);
    r := if IsUtf8(OrEmpty(field)) then Success(field) else Failure(DataConversion);
  }

  // `wide` selects how long values are chunked.
  method ReadPair(buf: ReadBuffer, wide: bool) returns (r: Result<Pair, Error>)
    requires buf.Valid()
    modifies buf
    ensures buf.Valid() && Read(r, buf.Rest()) == TakePair(old(buf.Rest()), wide)
  {
    var _ :- buf.ReadUb4();
    var key :- ReadText(buf);
    var length :- buf.ReadUb4();
    var value := None;
    if length > 0 {
      value :- buf.ReadBytesWithLength(wide);
    }
    var _ :- buf.ReadUb4();
    r := Success(Pair(OrEmpty(key), OrEmpty(value)));
  }

  // With `pairs` read and `n` to come, reading is bound for `all`.
  ghost predicate ReadTowards(all: Read<seq<Pair>>, pairs: seq<Pair>, rest: seq<byte>, n: nat, wide: bool) {
    all == Onto(pairs, TakePairs(rest, n, wide))
  }

  lemma NonePairRead(all: Read<seq<Pair>>, rest: seq<byte>, n: nat, wide: bool)
    requires all == TakePairs(rest, n, wide)
    ensures ReadTowards(all, [], rest, n, wide)
  {
    OntoTwice([], [], all);
  }

  lemma {:induction false} FirstPairRead(rest: seq<byte>, n: nat, wide: bool, pair: Pair, next: seq<byte>, left: nat)
    requires n > 0 && left == n - 1 && TakePair(rest, wide) == Read(Success(pair), next)
    ensures TakePairs(rest, n, wide) == Onto([pair], TakePairs(next, left, wide))
  {
  }

  lemma OntoMore(all: Read<seq<Pair>>, pairs: seq<Pair>, r: Read<seq<Pair>>, pair: Pair, more: seq<Pair>, tail: Read<seq<Pair>>)
    requires all == Onto(pairs, r) && r == Onto([pair], tail) && more == pairs + [pair]
    ensures all == Onto(more, tail)
  {
    OntoTwice(pairs, [pair], tail);
  }

  lemma {:induction false} PairRead(all: Read<seq<Pair>>, pairs: seq<Pair>, rest: seq<byte>, n: nat, wide: bool, pair: Pair,
    more: seq<Pair>, next: seq<byte>, left: nat)
    requires n > 0 && left == n - 1 && ReadTowards(all, pairs, rest, n, wide) && TakePair(rest, wide) == Read(Success(pair), next)
    requires more == pairs + [pair]
    ensures ReadTowards(all, more, next, left, wide)
  {
    FirstPairRead(rest, n, wide, pair, next, left);
    OntoMore(all, pairs, TakePairs(rest, n, wide), pair, more, TakePairs(next, left, wide));
  }

  lemma {:induction false} PairFailed(all: Read<seq<Pair>>, pairs: seq<Pair>, rest: seq<byte>, n: nat, wide: bool, e: Error, next: seq<byte>)
    requires n > 0 && ReadTowards(all, pairs, rest, n, wide) && TakePair(rest, wide) == Read(Failure(e), next)
    ensures all == Read(Failure(e), next)
  {
  }

  lemma PairsEnd(all: Read<seq<Pair>>, pairs: seq<Pair>, rest: seq<byte>, wide: bool)
    requires ReadTowards(all, pairs, rest, 0, wide)
    ensures all == Read(Success(pairs), rest)
  {
    assert pairs + [] == pairs;
  }

  method ReadPairs(buf: ReadBuffer, count: nat, wide: bool) returns (r: Result<seq<Pair>, Error>)
    requires buf.Valid()
    modifies buf
    ensures buf.Valid() && Read(r, buf.Rest()) == TakePairs(old(buf.Rest()), count, wide)
  {
    var pairs := [];
    ghost var all, left := TakePairs(buf.Rest(), count, wide), count;
    NonePairRead(all, buf.Rest(), count, wide);
    for i := 0 to count
      invariant buf.Valid() && left == count - i && ReadTowards(all, pairs, buf.Rest(), left, wide)
    {
      ghost var before, rest, n := pairs, buf.Rest(), left;
      var pair := ReadPair(buf, wide);
      if pair.Failure? {
        PairFailed(all, pairs, rest, left, wide, pair.error, buf.Rest());
        return Failure(pair.error);
      }
      pairs, left := pairs + [pair.value], left - 1;
      PairRead(all, before, rest, n, wide, pair.value, pairs, buf.Rest(), left);
    }
    PairsEnd(all, pairs, buf.Rest(), wide);
    r := Success(pairs);
  }

  // What the single length byte can carry; the key must be text, and not empty.
  predicate Short(p: Sent) {
    1 <= |p.key| <= MAX_SHORT_LENGTH && |p.value| <= MAX_SHORT_LENGTH && IsUtf8(p.key)
  }

  predicate AllShort(sent: seq<Sent>) {
    forall i | 0 <= i < |sent| :: Short(sent[i])
  }

  lemma TakeShortField(s: seq<byte>, suffix: seq<byte>, wide: bool)
    requires 1 <= |s| <= MAX_SHORT_LENGTH
    ensures TakeField([|s|] + s + suffix, wide) == Read(Success(Some(s)), suffix)
  {
    var tail := [|s|] + s + suffix;
    assert tail[1..] == s + suffix;
    assert (s + suffix)[..|s|] == s && (s + suffix)[|s|..] == suffix;
    assert TakeBytes(s + suffix, |s|) == Read(Success(s), suffix);
  }

  lemma AuthStringIs(s: seq<byte>, suffix: seq<byte>)
    requires 1 <= |s| <= MAX_SHORT_LENGTH
    ensures AuthString(s) + suffix == PutUb4(|s|) + ([|s|] + s + suffix)
  {
    assert PutUb4(|s|) == [1, |s|];
  }

  // Length word and counted bytes of a string, in front of anything.
  lemma TakeString(s: seq<byte>, suffix: seq<byte>, wide: bool)
    requires 1 <= |s| <= MAX_SHORT_LENGTH
    ensures TakeUb4(AuthString(s) + suffix) == Read(Success(|s|), [|s|] + s + suffix)
    ensures TakeField([|s|] + s + suffix, wide) == Read(Success(Some(s)), suffix)
  {
    AuthStringIs(s, suffix);
    TakePutUb4(|s|, [|s|] + s + suffix);
    TakeShortField(s, suffix, wide);
  }

  lemma TakeEmpty(suffix: seq<byte>)
    ensures TakeUb4(AuthString([]) + suffix) == Read(Success(0), suffix)
  {
    assert AuthString([]) + suffix == PutUb4(0) + suffix;
    TakePutUb4(0, suffix);
  }

  lemma PairParsesBack(p: Sent, suffix: seq<byte>, wide: bool)
    requires Short(p) && p.flags < 0x1_0000_0000
    ensures TakeSent(AuthPair(p) + suffix, wide) == Read(Success(p), suffix)
    ensures TakePair(AuthPair(p) + suffix, wide) == Read(Success(Pair(p.key, p.value)), suffix)
  {
    var afterValue := PutUb4(p.flags) + suffix;
    var afterKey := AuthString(p.value) + afterValue;
    assert AuthPair(p) + suffix == AuthString(p.key) + afterKey;
    TakeString(p.key, afterKey, true);
    if p.value == [] {
      TakeEmpty(afterValue);
    } else {
      TakeString(p.value, afterValue, wide);
    }
    TakePutUb4(p.flags, suffix);
  }

  // The list read is the list written, and nothing of what follows is touched,
  // whichever way long values would have been chunked.
  lemma {:induction false} ListsParseBack(sent: seq<Sent>, suffix: seq<byte>, wide: bool)
    requires Flagged(sent) && AllShort(sent)
    ensures TakePairs(AuthPairs(sent) + suffix, |sent|, wide) == Read(Success(Received(sent)), suffix)
    decreases |sent|
  {
    if sent == [] {
      assert AuthPairs(sent) + suffix == suffix;
    } else {
      var more := AuthPairs(sent[1..]) + suffix;
      assert AuthPairs(sent) + suffix == AuthPair(sent[0]) + more;
      PairParsesBack(sent[0], more, wide);
      ListsParseBack(sent[1..], suffix, wide);
      ReceivedStep(sent);
    }
  }

  lemma TakeUb4Consumes(s: seq<byte>)
    ensures TakeUb4(s).answer.Success? ==> |TakeUb4(s).rest| < |s|
    ensures |TakeUb4(s).rest| <= |s|
  {
  }

  lemma TakeValueConsumes(s: seq<byte>, length: nat, wide: bool)
    ensures |TakeValue(s, length, wide).rest| <= |s|
  {
    if length > 0 {
      FieldsReadForward(s, wide);
    }
  }

  lemma KeyIsKept(s: seq<byte>, wide: bool, n: nat, rest: seq<byte>, key: seq<byte>, after: seq<byte>)
    requires TakeUb4(s) == Read(Success(n), rest) && TakeField(rest, true) == Read(Success(Some(key)), after)
    ensures var r := TakePair(s, wide); r.answer.Success? ==> r.answer.value.key == key
  {
  }

  lemma LengthIsField(value: seq<byte>, suffix: seq<byte>)
    requires 1 <= |value| <= MAX_SHORT_LENGTH
    ensures TakeField(AuthString(value) + suffix, true) == Read(Success(Some([|value|])), [|value|] + value + suffix)
  {
    TakeShortField([|value|], [|value|] + value + suffix, true);
    AuthStringIs(value, suffix);
    assert PutUb4(|value|) == [1, |value|] == [1] + [|value|];
  }

  // Without a key the value's length is read as the key's text.
  lemma ValueIsReadAsKey(p: Sent, suffix: seq<byte>, wide: bool)
    requires p.key == [] && 1 <= |p.value| <= MAX_SHORT_LENGTH && p.flags < 0x1_0000_0000
    ensures var r := TakePair(AuthPair(p) + suffix, wide); r.answer.Success? ==> r.answer.value.key == [|p.value|]
  {
    var afterValue := PutUb4(p.flags) + suffix;
    var rest := AuthString(p.value) + afterValue;
    assert AuthPair(p) + suffix == AuthString([]) + rest;
    TakeEmpty(rest);
    LengthIsField(p.value, afterValue);
    KeyIsKept(AuthPair(p) + suffix, wide, 0, rest, [|p.value|], [|p.value|] + p.value + afterValue);
  }

  lemma ValueIsConsumed(s: seq<byte>, wide: bool, rest: seq<byte>, afterKey: seq<byte>, length: nat, suffix: seq<byte>)
    requires TakeUb4(s) == Read(Success(0), rest) && TakeText(rest) == Read(Success(Some([])), afterKey)
    requires TakeUb4(afterKey) == Read(Success(length), suffix)
    ensures var r := TakePair(s, wide); r.answer.Success? ==> |r.rest| < |suffix|
  {
    TakeValueConsumes(suffix, length, wide);
    TakeUb4Consumes(TakeValue(suffix, length, wide).rest);
  }

  lemma ZeroIsEmptyText(suffix: seq<byte>)
    ensures TakeText(AuthString([]) + suffix) == Read(Success(Some([])), suffix)
  {
    var rest := AuthString([]) + suffix;
    assert rest == [0] + suffix && rest[1..] == suffix && suffix[..0] == [] && suffix[0..] == suffix;
    assert TakeField(rest, true) == Read(Success(Some([])), suffix);
  }

  // Without either the flags are read as the value's length, and what follows
  // the pair as its value and flags.
  lemma SuffixIsConsumed(p: Sent, suffix: seq<byte>, wide: bool)
    requires p.key == [] && p.value == [] && p.flags < 0x1_0000_0000
    ensures var r := TakePair(AuthPair(p) + suffix, wide); r.answer.Success? ==> |r.rest| < |suffix|
  {
    var afterKey := PutUb4(p.flags) + suffix;
    var rest := AuthString([]) + afterKey;
    assert AuthPair(p) + suffix == AuthString([]) + rest;
    TakeEmpty(rest);
    ZeroIsEmptyText(afterKey);
    TakePutUb4(p.flags, suffix);
    ValueIsConsumed(AuthPair(p) + suffix, wide, rest, afterKey, p.flags, suffix);
  }

  lemma BytesAreRefused(p: Sent, suffix: seq<byte>, wide: bool)
    requires 1 <= |p.key| <= MAX_SHORT_LENGTH && p.flags < 0x1_0000_0000 && !IsUtf8(p.key)
    ensures TakePair(AuthPair(p) + suffix, wide).answer == Failure(DataConversion)
  {
    var afterKey := AuthString(p.value) + (PutUb4(p.flags) + suffix);
    assert AuthPair(p) + suffix == AuthString(p.key) + afterKey;
    TakeString(p.key, afterKey, true);
  }

  // Within the short lengths a pair reads back exactly if its key is text and
  // not empty.
  lemma PairReadsBackIffKeyed(p: Sent, suffix: seq<byte>, wide: bool)
    requires |p.key| <= MAX_SHORT_LENGTH && |p.value| <= MAX_SHORT_LENGTH && p.flags < 0x1_0000_0000
    ensures TakePair(AuthPair(p) + suffix, wide) == Read(Success(Pair(p.key, p.value)), suffix) <==>
      p.key != [] && IsUtf8(p.key)
  {
    if p.key != [] {
      if IsUtf8(p.key) {
        PairParsesBack(p, suffix, wide);
      } else {
        BytesAreRefused(p, suffix, wide);
      }
    } else if p.value != [] {
      ValueIsReadAsKey(p, suffix, wide);
    } else {
      SuffixIsConsumed(p, suffix, wide);
    }
  }

  // ---- Lists that clients write -----------------------------------------------------

  lemma {:induction false} PairIsTaken(s: seq<byte>, wide: bool, n: nat, key: seq<byte>, m: nat, value: seq<byte>, flags: nat,
    afterLength: seq<byte>, afterKey: seq<byte>, atValue: seq<byte>, afterValue: seq<byte>, suffix: seq<byte>)
    requires TakeUb4(s) == Read(Success(n), afterLength)
    requires TakeField(afterLength, true) == Read(Success(Some(key)), afterKey) && IsUtf8(key)
    requires TakeUb4(afterKey) == Read(Success(m), atValue) && m > 0
    requires TakeField(atValue, wide) == Read(Success(Some(value)), afterValue)
    requires TakeUb4(afterValue) == Read(Success(flags), suffix)
    ensures TakePair(s, wide) == Read(Success(Pair(key, value)), suffix)
  {
  }

  // A key of any length, and a value cut up in the form the client uses, whatever
  // the lengths before them say, if the value's is not zero.
  lemma {:induction false} LongPairsReadBack(n: nat, key: seq<byte>, m: nat, pieces: seq<seq<byte>>, wide: bool, flags: nat,
    suffix: seq<byte>)
    requires n < 0x1_0000_0000 && 1 <= m < 0x1_0000_0000 && flags < 0x1_0000_0000
    requires IsUtf8(key) && AllChunks(pieces, wide)
    ensures TakePair(PutUb4(n) + (PutBytes(Some(key)) + (PutUb4(m) + ([254] + Chunked(pieces, wide) + (PutUb4(flags) + suffix)))),
      wide) == Read(Success(Pair(key, Joined(pieces))), suffix)
  {
    var afterValue := PutUb4(flags) + suffix;
    var atValue := [254] + Chunked(pieces, wide) + afterValue;
    var afterKey := PutUb4(m) + atValue;
    var afterLength := PutBytes(Some(key)) + afterKey;
    TakePutUb4(n, afterLength);
    TakePutBytes(Some(key), afterKey);
    TakePutUb4(m, atValue);
    LongFieldsReadBack(pieces, wide, afterValue);
    TakePutUb4(flags, suffix);
    PairIsTaken(PutUb4(n) + afterLength, wide, n, key, m, Joined(pieces), flags, afterLength, afterKey, atValue, afterValue, suffix);
  }

  // ---- Text ---------------------------------------------------------------------------

  // The characters of Unicode, surrogates left out.
  predicate IsScalar(c: nat) {
    c < 0xD800 || 0xE000 <= c < 0x110000
  }

  // A character in one to four bytes (section 3 of RFC 3629).
  function CharacterBytes(c: nat): (s: seq<byte>)
    requires IsScalar(c)
    ensures s != []
  {
    if c < 0x80 then [c]
    else if c < 0x800 then [0xC0 + c / 64, 0x80 + c % 64]
    else if c < 0x10000 then [0xE0 + c / 64 / 64, 0x80 + c / 64 % 64, 0x80 + c % 64]
    else [0xF0 + c / 64 / 64 / 64, 0x80 + c / 64 / 64 % 64, 0x80 + c / 64 % 64, 0x80 + c % 64]
  }

  predicate AreScalars(characters: seq<nat>) {
    forall k | 0 <= k < |characters| :: IsScalar(characters[k])
  }

  function TextBytes(characters: seq<nat>): seq<byte>
    requires AreScalars(characters)
  {
    if characters == [] then [] else CharacterBytes(characters[0]) + TextBytes(characters[1..])
  }

  lemma {:induction false} CharacterIsMeasured(c: nat, rest: seq<byte>)
    requires IsScalar(c)
    ensures CharacterLength(CharacterBytes(c) + rest) == |CharacterBytes(c)|
    ensures (CharacterBytes(c) + rest)[|CharacterBytes(c)|..] == rest
  {
    var s := CharacterBytes(c) + rest;
    assert forall k | 0 <= k < |CharacterBytes(c)| :: s[k] == CharacterBytes(c)[k];
  }

  lemma {:induction false} TwoBytes(a: byte, b: byte, c: nat)
    requires 0xC2 <= a <= 0xDF && Continuation(b) && c == 64 * (a as int - 0xC0) + (b as int - 0x80)
    ensures IsScalar(c) && CharacterBytes(c) == [a, b]
  {
    assert c / 64 == a as int - 0xC0 && c % 64 == b as int - 0x80;
  }

  lemma {:induction false} ThreeBytes(a: byte, b: byte, d: byte, c: nat)
    requires 0xE0 <= a <= 0xEF && Continuation(b) && Continuation(d) && (a == 0xE0 ==> b >= 0xA0) && (a == 0xED ==> b < 0xA0)
    requires c == 64 * (64 * (a as int - 0xE0) + (b as int - 0x80)) + (d as int - 0x80)
    ensures IsScalar(c) && CharacterBytes(c) == [a, b, d]
  {
    var high := 64 * (a as int - 0xE0) + (b as int - 0x80);
    assert c / 64 == high && c % 64 == d as int - 0x80;
    assert high / 64 == a as int - 0xE0 && high % 64 == b as int - 0x80;
  }

  lemma {:induction false} FourBytes(a: byte, b: byte, d: byte, e: byte, c: nat)
    requires 0xF0 <= a <= 0xF4 && Continuation(b) && Continuation(d) && Continuation(e)
    requires (a == 0xF0 ==> b >= 0x90) && (a == 0xF4 ==> b < 0x90)
    requires c == 64 * (64 * (64 * (a as int - 0xF0) + (b as int - 0x80)) + (d as int - 0x80)) + (e as int - 0x80)
    ensures IsScalar(c) && CharacterBytes(c) == [a, b, d, e]
  {
    var high := 64 * (a as int - 0xF0) + (b as int - 0x80);
    var middle := 64 * high + (d as int - 0x80);
    assert c / 64 == middle && c % 64 == e as int - 0x80;
    assert middle / 64 == high && middle % 64 == d as int - 0x80;
    assert high / 64 == a as int - 0xF0 && high % 64 == b as int - 0x80;
  }

  lemma {:induction false} MeasuredIsCharacter(s: seq<byte>) returns (c: nat)
    requires CharacterLength(s) > 0
    ensures IsScalar(c) && CharacterBytes(c) == s[..CharacterLength(s)]
  {
    var n := CharacterLength(s);
    if n == 1 {
      c := s[0];
      assert s[..1] == [s[0]];
    } else if n == 2 {
      c := 64 * (s[0] as int - 0xC0) + (s[1] as int - 0x80);
      TwoBytes(s[0], s[1], c);
      assert s[..2] == [s[0], s[1]];
    } else if n == 3 {
      c := 64 * (64 * (s[0] as int - 0xE0) + (s[1] as int - 0x80)) + (s[2] as int - 0x80);
      ThreeBytes(s[0], s[1], s[2], c);
      assert s[..3] == [s[0], s[1], s[2]];
    } else {
      c := 64 * (64 * (64 * (s[0] as int - 0xF0) + (s[1] as int - 0x80)) + (s[2] as int - 0x80)) + (s[3] as int - 0x80);
      FourBytes(s[0], s[1], s[2], s[3], c);
      assert s[..4] == [s[0], s[1], s[2], s[3]];
    }
  }

  lemma {:induction false} TextIsUtf8(characters: seq<nat>)
    requires AreScalars(characters)
    ensures IsUtf8(TextBytes(characters))
  {
    if characters != [] {
      CharacterIsMeasured(characters[0], TextBytes(characters[1..]));
      TextIsUtf8(characters[1..]);
    }
  }

  lemma {:induction false} Utf8IsText(s: seq<byte>) returns (characters: seq<nat>)
    requires IsUtf8(s)
    ensures AreScalars(characters) && TextBytes(characters) == s
    decreases |s|
  {
    if s == [] {
      characters := [];
    } else {
      var n := CharacterLength(s);
      var c := MeasuredIsCharacter(s);
      var rest := Utf8IsText(s[n..]);
      characters := [c] + rest;
      assert characters[1..] == rest && s == s[..n] + s[n..];
    }
  }

  // A key is accepted if and only if its bytes are those of some characters.
  lemma {:induction false} TextIsCharacters(s: seq<byte>)
    ensures IsUtf8(s) <==> exists characters :: AreScalars(characters) && TextBytes(characters) == s
  {
    if IsUtf8(s) {
      var characters := Utf8IsText(s);
    }
    if characters :| AreScalars(characters) && TextBytes(characters) == s {
      TextIsUtf8(characters);
    }
  }

  // ---- OCI framing ---------------------------------------------------------------

  function Le32(v: nat): (s: seq<byte>)
    requires v < 0x1_0000_0000
    ensures |s| == 4
  {
    [v % 256, v / 256 % 256, v / 256 / 256 % 256, v / 256 / 256 / 256]
  }

  function FromLe32(s: seq<byte>): nat
    requires |s| >= 4
  {
    s[0] as int + 256 * s[1] as int + 0x1_0000 * s[2] as int + 0x100_0000 * s[3] as int
  }

  lemma Le32Inverts(v: nat, suffix: seq<byte>)
    requires v < 0x1_0000_0000
    ensures FromLe32(Le32(v) + suffix) == v
  {
    var b, c := v / 256, v / 256 / 256;
    assert v == 256 * b + v % 256 && b == 256 * c + b % 256 && c == 256 * (c / 256) + c % 256;
  }

  predicate Writable(p: Sent) {
    |p.key| < 0x1_0000_0000 && |p.value| < 0x1_0000_0000 && p.flags < 0x1_0000_0000
  }

  function OciKey(key: seq<byte>): seq<byte>
    requires |key| < 0x1_0000_0000
  {
    Le32(|key|) + [|key| % 256] + key
  }

  function OciValue(value: seq<byte>): seq<byte>
    requires |value| < 0x1_0000_0000
  {
    Le32(|value|) + if value == [] then [] else [|value| % 256] + value
  }

  function OciPair(p: Sent): seq<byte>
    requires Writable(p)
  {
    OciKey(p.key) + OciValue(p.value) + Le32(p.flags)
  }

  function OciPairs(sent: seq<Sent>): seq<byte>
    requires forall i | 0 <= i < |sent| :: Writable(sent[i])
  {
    if sent == [] then [] else OciPair(sent[0]) + OciPairs(sent[1..])
  }

  method WriteOciPair(buf: WriteBuffer, p: Sent)
    requires Writable(p)
    modifies buf
    ensures buf.data == old(buf.data) + OciPair(p)
  {
    WriteOciKey(buf, p.key);
    WriteOciValue(buf, p.value);
    buf.WriteSlice(Le32(p.flags));
  }

  method WriteOciKey(buf: WriteBuffer, key: seq<byte>)
    requires |key| < 0x1_0000_0000
    modifies buf
    ensures buf.data == old(buf.data) + OciKey(key)
  {
    buf.WriteSlice(Le32(|key|));
    buf.WriteU8(|key| % 256);
    buf.WriteSlice(key);
  }

  method WriteOciValue(buf: WriteBuffer, value: seq<byte>)
    requires |value| < 0x1_0000_0000
    modifies buf
    ensures buf.data == old(buf.data) + OciValue(value)
  {
    buf.WriteSlice(Le32(|value|));
    if value != [] {
      buf.WriteU8(|value| % 256);
      buf.WriteSlice(value);
    }
  }

  function TrimNuls(s: seq<byte>): seq<byte> {
    if s != [] && s[|s| - 1] == 0 then TrimNuls(s[..|s| - 1]) else s
  }

  function Drop(s: seq<byte>, n: nat): seq<byte> {
    if n <= |s| then s[n..] else []
  }

  // A key is announced twice, and is at most 64 bytes long.
  predicate KeyFollows(s: seq<byte>) {
    |s| >= 5 && 1 <= FromLe32(s) <= 64 && 5 + FromLe32(s) <= |s| && s[4] == FromLe32(s)
  }

  // The bytes of the value and how many they take up; `s` starts at its length.
  function ValueAt(s: seq<byte>): Option<(seq<byte>, nat)> {
    if |s| < 4 then None
    else if FromLe32(s) == 0 then Some(([], 4))
    else if |s| < 5 + FromLe32(s) then None
    else Some((s[5..5 + FromLe32(s)], 5 + FromLe32(s)))
  }

  datatype Taken = Taken(pair: Pair, size: nat)

  // One pair and how many bytes it takes up, flags included.
  function TakeOne(s: seq<byte>): (one: Option<Taken>)
    ensures one.Some? ==> one.value.size > 0 && |s| >= 5
  {
    if !KeyFollows(s) then None
    else
      var n := 5 + FromLe32(s);
      var value := ValueAt(s[n..]);
      if value.None? then None
      else Some(Taken(Pair(TrimNuls(s[5..n]), value.value.0), n + value.value.1 + 4))
  }

  lemma OntoPairs(a: seq<Pair>, b: seq<Pair>, c: seq<Pair>)
    ensures a + (b + c) == (a + b) + c
  {
  }

  // Pairs up to the first thing that is not one; trailing flags may be missing.
  function TakeOciPairs(s: seq<byte>): seq<Pair>
    decreases |s|
  {
    var one := TakeOne(s);
    if one.None? then [] else [one.value.pair] + TakeOciPairs(Drop(s, one.value.size))
  }

  // A key that reads back as itself.
  predicate Readable(p: Sent) {
    Writable(p) && 1 <= |p.key| <= 64 && p.key[|p.key| - 1] != 0
  }

  predicate AllReadable(sent: seq<Sent>) {
    forall i | 0 <= i < |sent| :: Readable(sent[i])
  }

  lemma KeyIsThere(key: seq<byte>, suffix: seq<byte>)
    requires 1 <= |key| <= 64
    ensures var s := OciKey(key) + suffix;
      KeyFollows(s) && FromLe32(s) == |key| && s[5..5 + |key|] == key && s[5 + |key|..] == suffix
  {
    Le32Inverts(|key|, [|key|] + key + suffix);
    assert OciKey(key) + suffix == Le32(|key|) + ([|key|] + key + suffix);
  }

  lemma ValueIsThere(value: seq<byte>, suffix: seq<byte>)
    requires |value| < 0x1_0000_0000
    ensures var s := OciValue(value) + suffix;
      ValueAt(s) == Some((value, |OciValue(value)|)) && Drop(s, |OciValue(value)|) == suffix
  {
    var body := if value == [] then [] else [|value| % 256] + value;
    Le32Inverts(|value|, body + suffix);
    assert OciValue(value) + suffix == Le32(|value|) + (body + suffix);
    if value != [] {
      assert (OciValue(value) + suffix)[5..5 + |value|] == value;
    }
  }

  lemma TakenWhole(s: seq<byte>, n: nat, padded: seq<byte>, key: seq<byte>, afterKey: seq<byte>, value: seq<byte>, size: nat)
    requires KeyFollows(s) && n == 5 + FromLe32(s) && s[5..n] == padded && s[n..] == afterKey && TrimNuls(padded) == key
    requires ValueAt(afterKey) == Some((value, size))
    ensures TakeOne(s) == Some(Taken(Pair(key, value), n + size + 4))
  {
  }

  lemma OciPairSize(p: Sent)
    requires Readable(p)
    ensures |OciPair(p)| == 5 + |p.key| + |OciValue(p.value)| + 4
  {
  }

  lemma OciPairSplits(p: Sent, suffix: seq<byte>)
    requires Writable(p)
    ensures OciPair(p) + suffix == OciKey(p.key) + (OciValue(p.value) + (Le32(p.flags) + suffix))
  {
  }

  // The flags, which the program skips, stand at the end.
  lemma OciFlagsReadBack(p: Sent, suffix: seq<byte>)
    requires Writable(p)
    ensures FromLe32((OciPair(p) + suffix)[|OciPair(p)| - 4..]) == p.flags
  {
    Le32Inverts(p.flags, suffix);
    assert (OciPair(p) + suffix)[|OciPair(p)| - 4..] == Le32(p.flags) + suffix;
  }

  lemma {:induction false} TakeKeyAndValue(key: seq<byte>, value: seq<byte>, suffix: seq<byte>)
    requires 1 <= |key| <= 64 && TrimNuls(key) == key && |value| < 0x1_0000_0000
    ensures TakeOne(OciKey(key) + (OciValue(value) + suffix)) ==
      Some(Taken(Pair(key, value), 5 + |key| + |OciValue(value)| + 4))
  {
    var afterKey := OciValue(value) + suffix;
    KeyIsThere(key, afterKey);
    ValueIsThere(value, suffix);
    TakenWhole(OciKey(key) + afterKey, 5 + |key|, key, key, afterKey, value, |OciValue(value)|);
  }

  lemma {:induction false} TakeOnePair(p: Sent, suffix: seq<byte>)
    requires Readable(p)
    ensures TakeOne(OciPair(p) + suffix) == Some(Taken(Pair(p.key, p.value), |OciPair(p)|))
  {
    TakeKeyAndValue(p.key, p.value, Le32(p.flags) + suffix);
    OciPairSplits(p, suffix);
    OciPairSize(p);
  }

  lemma OciPairParsesBack(p: Sent, suffix: seq<byte>)
    requires Readable(p)
    ensures TakeOciPairs(OciPair(p) + suffix) == [Pair(p.key, p.value)] + TakeOciPairs(suffix)
  {
    TakeOnePair(p, suffix);
    assert Drop(OciPair(p) + suffix, |OciPair(p)|) == suffix;
  }

  lemma {:induction false} OciListsParseBack(sent: seq<Sent>, suffix: seq<byte>)
    requires AllReadable(sent)
    ensures TakeOciPairs(OciPairs(sent) + suffix) == Received(sent) + TakeOciPairs(suffix)
    decreases |sent|
  {
    if sent == [] {
      assert OciPairs(sent) + suffix == suffix;
    } else {
      var more := OciPairs(sent[1..]) + suffix;
      assert OciPairs(sent) + suffix == OciPair(sent[0]) + more;
      OciPairParsesBack(sent[0], more);
      OciListsParseBack(sent[1..], suffix);
      ReceivedStep(sent);
      OntoPairs([Pair(sent[0].key, sent[0].value)], Received(sent[1..]), TakeOciPairs(suffix));
    }
  }

  function Nuls(n: nat): (s: seq<byte>)
    ensures |s| == n && forall k | 0 <= k < n :: s[k] == 0
  {
    seq(n, _ => 0)
  }

  lemma {:induction false} NulsAreTrimmed(key: seq<byte>, n: nat)
    requires key == [] || key[|key| - 1] != 0
    ensures TrimNuls(key + Nuls(n)) == key
  {
    if n > 0 {
      assert (key + Nuls(n))[..|key| + n - 1] == key + Nuls(n - 1);
      NulsAreTrimmed(key, n - 1);
    } else {
      assert key + Nuls(n) == key;
    }
  }

  lemma {:induction false} PairsGoOn(s: seq<byte>, pair: Pair, size: nat, suffix: seq<byte>)
    requires TakeOne(s) == Some(Taken(pair, size + 4)) && Drop(s, size) == suffix
    ensures TakeOciPairs(s) == [pair] + TakeOciPairs(if |suffix| < 4 then [] else suffix[4..])
  {
    assert Drop(s, size + 4) == if |suffix| < 4 then [] else suffix[4..];
  }

  // A key is read without the NULs it may end in, and the last pair even if
  // its flags are cut off.
  lemma {:induction false} PaddedPairsReadBack(key: seq<byte>, n: nat, value: seq<byte>, suffix: seq<byte>)
    requires 1 <= |key| + n <= 64 && (key == [] || key[|key| - 1] != 0) && |value| < 0x1_0000_0000
    ensures TakeOciPairs(OciKey(key + Nuls(n)) + (OciValue(value) + suffix)) ==
      [Pair(key, value)] + TakeOciPairs(if |suffix| < 4 then [] else suffix[4..])
  {
    var padded, afterKey := key + Nuls(n), OciValue(value) + suffix;
    var s, size := OciKey(padded) + afterKey, 5 + |padded| + |OciValue(value)|;
    NulsAreTrimmed(key, n);
    KeyIsThere(padded, afterKey);
    ValueIsThere(value, suffix);
    TakenWhole(s, 5 + |padded|, padded, key, afterKey, value, |OciValue(value)|);
    assert Drop(s, size) == suffix;
    PairsGoOn(s, Pair(key, value), size, suffix);
  }

  // ---- Finding the list in a request ----------------------------------------------

  const AUTH: seq<byte> := [65, 85, 84, 72]
  const SESSION: seq<byte> := [83, 69, 83, 83, 73, 79, 78]

  predicate Announces(key: seq<byte>) {
    AUTH <= key || SESSION <= key
  }

  // The key text starts at `p`, with a consistent prefix of 5 bytes before it.
  predicate KeyAt(payload: seq<byte>, p: nat)
    requires 5 <= p < |payload|
  {
    && Announces(payload[p..])
    && 4 <= FromLe32(payload[p - 5..]) <= 64
    && payload[p - 1] == FromLe32(payload[p - 5..])
  }

  predicate IsListStart(payload: seq<byte>, start: nat) {
    start + 9 < |payload| && KeyAt(payload, start + 5)
  }

  predicate IsGraphic(s: seq<byte>) {
    forall i | 0 <= i < |s| :: 33 <= s[i] <= 126
  }

  // The `n` bytes before `start` are a name preceded by its length.
  predicate NameBefore(payload: seq<byte>, start: nat, n: nat) {
    n < start <= |payload| && payload[start - 1 - n] == n && IsGraphic(payload[start - n..start])
  }

  // The list starts at the first place that looks like it.
  method FindStart(payload: seq<byte>) returns (start: Option<nat>)
    ensures match start
      case None => forall k: nat :: !IsListStart(payload, k)
      case Some(k) => IsListStart(payload, k) && forall j: nat | j < k :: !IsListStart(payload, j)
  {
    var p := 5;
    while p < |payload| - 4
      invariant 5 <= p
      invariant forall j: nat | j + 5 < p :: !IsListStart(payload, j)
    {
      if KeyAt(payload, p) {
        assert IsListStart(payload, p - 5);
        return Some(p - 5);
      }
      assert !IsListStart(payload, p - 5);
      p := p + 1;
    }
    start := None;
  }

  // The shortest name of up to 30 bytes that ends where the list starts.
  ghost predicate IsName(payload: seq<byte>, start: nat, name: Option<seq<byte>>) {
    match name
    case None => forall n | 1 <= n <= 30 :: !NameBefore(payload, start, n)
    case Some(s) =>
      && 1 <= |s| <= 30 && NameBefore(payload, start, |s|) && s == payload[start - |s|..start]
      && forall n | 1 <= n < |s| :: !NameBefore(payload, start, n)
  }

  method FindName(payload: seq<byte>, start: nat) returns (name: Option<seq<byte>>)
    requires start <= |payload|
    ensures IsName(payload, start, name)
  {
    var n := 1;
    while n <= 30
      invariant 1 <= n <= 31
      invariant forall m | 1 <= m < n :: !NameBefore(payload, start, m)
    {
      if start < 1 + n {
        return None;
      }
      if payload[start - 1 - n] == n && IsGraphic(payload[start - n..start]) {
        return Some(payload[start - n..start]);
      }
      n := n + 1;
    }
    name := None;
  }

  lemma DropTwice(s: seq<byte>, i: nat, n: nat)
    ensures Drop(Drop(s, i), n) == Drop(s, i + n)
  {
  }

  // The pairs already read, and the ones to come.
  function TakeOnto(pairs: seq<Pair>, s: seq<byte>): seq<Pair>
    decreases |s|
  {
    var one := TakeOne(s);
    if one.None? then pairs else TakeOnto(pairs + [one.value.pair], Drop(s, one.value.size))
  }

  lemma {:induction false} TakeOntoAppends(pairs: seq<Pair>, s: seq<byte>)
    ensures TakeOnto(pairs, s) == pairs + TakeOciPairs(s)
    decreases |s|
  {
    var one := TakeOne(s);
    if one.Some? {
      var rest := Drop(s, one.value.size);
      TakeOntoAppends(pairs + [one.value.pair], rest);
      OntoPairs(pairs, [one.value.pair], TakeOciPairs(rest));
    }
  }

  // From position `i`, with `pairs` read, the loop is bound for `all`.
  ghost predicate BoundFor(payload: seq<byte>, i: nat, pairs: seq<Pair>, all: seq<Pair>) {
    TakeOnto(pairs, Drop(payload, i)) == all
  }

  lemma Advance(payload: seq<byte>, i: nat, pairs: seq<Pair>, all: seq<Pair>, one: Taken, next: nat, read: seq<Pair>)
    requires BoundFor(payload, i, pairs, all) && TakeOne(Drop(payload, i)) == Some(one)
    requires next == i + one.size && read == pairs + [one.pair]
    ensures next > i && BoundFor(payload, next, read, all)
  {
    DropTwice(payload, i, one.size);
  }

  lemma Ends(payload: seq<byte>, i: nat, pairs: seq<Pair>, all: seq<Pair>)
    requires BoundFor(payload, i, pairs, all) && TakeOne(Drop(payload, i)).None?
    ensures pairs == all
  {
  }

  lemma SetOut(payload: seq<byte>, start: nat)
    ensures BoundFor(payload, start, [], TakeOciPairs(Drop(payload, start)))
  {
    TakeOntoAppends([], Drop(payload, start));
  }

  lemma Arrived(payload: seq<byte>, i: nat, pairs: seq<Pair>, all: seq<Pair>)
    requires BoundFor(payload, i, pairs, all) && i + 5 > |payload|
    ensures pairs == all
  {
  }

  method ReadOne(payload: seq<byte>, i: nat) returns (r: Option<Taken>)
    requires i <= |payload|
    ensures r == TakeOne(Drop(payload, i))
  {
    if !KeyFollows(payload[i..]) {
      return None;
    }
    var n := 5 + FromLe32(payload[i..]);
    ghost var s := payload[i..];
    assert s[n..] == payload[i + n..] && s[5..n] == payload[i + 5..i + n];
    var key := TrimNuls(payload[i + 5..i + n]);
    var value := ValueAt(payload[i + n..]);
    if value.None? {
      return None;
    }
    r := Some(Taken(Pair(key, value.value.0), n + value.value.1 + 4));
  }

  // One turn of the loop: the list so far and where it goes on, if it does.
  method ReadOciPair(payload: seq<byte>, i: nat, pairs: seq<Pair>, ghost all: seq<Pair>)
    returns (more: bool, read: seq<Pair>, next: nat)
    requires i <= |payload| && BoundFor(payload, i, pairs, all)
    ensures if more then next > i && BoundFor(payload, next, read, all) else read == all
  {
    var one := ReadOne(payload, i);
    if one.None? {
      Ends(payload, i, pairs, all);
      return false, pairs, i;
    }
    more, read, next := true, pairs + [one.value.pair], i + one.value.size;
    Advance(payload, i, pairs, all, one.value, next, read);
  }

  method ReadOciPairs(payload: seq<byte>, start: nat) returns (pairs: seq<Pair>)
    requires start <= |payload|
    ensures pairs == TakeOciPairs(Drop(payload, start))
  {
    pairs := [];
    var i := start;
    SetOut(payload, start);
    ghost var all := TakeOciPairs(Drop(payload, start));
    while i + 5 <= |payload|
      invariant BoundFor(payload, i, pairs, all)
      decreases |payload| - i
    {
      var more;
      more, pairs, i := ReadOciPair(payload, i, pairs, all);
      if !more {
        return;
      }
    }
    Arrived(payload, i, pairs, all);
  }

  ghost predicate IsFirstStart(payload: seq<byte>, k: nat) {
    IsListStart(payload, k) && forall j: nat | j < k :: !IsListStart(payload, j)
  }

  method ParseOciAuth(payload: seq<byte>) returns (name: Option<seq<byte>>, pairs: seq<Pair>)
    ensures (forall k: nat :: !IsListStart(payload, k)) ==> name == None && pairs == []
    ensures forall k: nat | IsFirstStart(payload, k) :: IsName(payload, k, name) && pairs == TakeOciPairs(Drop(payload, k))
  {
    var start := FindStart(payload);
    if start.None? {
      return None, [];
    }
    name := FindName(payload, start.value);
    pairs := ReadOciPairs(payload, start.value);
    forall k: nat | IsFirstStart(payload, k)
      ensures k == start.value
    {
    }
  }

  // ---- What a client sends is what the server finds ----------------------------------

  // "AUTH" or "SESSION", in ASCII.
  predicate StartsAsAuthKey(s: seq<byte>) {
    [65, 85, 84, 72] <= s || [83, 69, 83, 83, 73, 79, 78] <= s
  }

  // A list starts before a key that is announced with a length of 4 to 64,
  // twice, and is not the last thing there is.
  lemma {:induction false} StartsAreTold(payload: seq<byte>, k: nat)
    ensures IsListStart(payload, k) <==>
      && k + 10 <= |payload| && StartsAsAuthKey(payload[k + 5..])
      && payload[k + 4] <= 64 && payload[k + 4] >= 4
      && payload[k] == payload[k + 4] && payload[k + 1] == payload[k + 2] == payload[k + 3] == 0
  {
  }

  // Nothing before the list looks like the start of one.
  predicate NoFalseMatch(before: seq<byte>, list: seq<byte>) {
    var payload := before + list;
    forall p | 5 <= p < |before| :: !(
      && StartsAsAuthKey(payload[p..])
      && 4 <= FromLe32(payload[p - 5..]) <= 64 && payload[p - 1] == FromLe32(payload[p - 5..]))
  }

  // A length prefix is never taken for a key: 'A' and 'S' are above 64.
  lemma PrefixIsNoKey(before: seq<byte>, key: seq<byte>, rest: seq<byte>, p: nat)
    requires 1 <= |key| <= 64 && |before| <= p < |before| + 5
    ensures !Announces((before + (OciKey(key) + rest))[p..])
  {
    assert (before + (OciKey(key) + rest))[p..][0] == (Le32(|key|) + [|key|])[p - |before|];
  }

  lemma ListStartsHere(before: seq<byte>, key: seq<byte>, rest: seq<byte>)
    requires 4 <= |key| <= 64 && StartsAsAuthKey(key) && |rest| >= 8
    ensures IsListStart(before + (OciKey(key) + rest), |before|)
  {
    var payload := before + (OciKey(key) + rest);
    assert payload[|before|..] == OciKey(key) + rest;
    assert payload[|before| + 5..] == key + rest;
    KeyIsThere(key, rest);
    assert payload[|before| + 4] == (OciKey(key) + rest)[4];
  }

  lemma NoStartBefore(before: seq<byte>, key: seq<byte>, rest: seq<byte>, j: nat)
    requires 1 <= |key| <= 64 && NoFalseMatch(before, OciKey(key) + rest) && j < |before|
    ensures !IsListStart(before + (OciKey(key) + rest), j)
  {
    if |before| <= j + 5 {
      PrefixIsNoKey(before, key, rest, j + 5);
    }
  }

  lemma FourParts(a: seq<byte>, b: seq<byte>, c: seq<byte>, d: seq<byte>, e: seq<byte>)
    ensures a + b + c + d + e == a + (b + (c + (d + e)))
  {
  }

  lemma ListBeginsWithKey(sent: seq<Sent>, suffix: seq<byte>, rest: seq<byte>)
    requires sent != [] && AllReadable(sent)
    requires rest == OciValue(sent[0].value) + (Le32(sent[0].flags) + (OciPairs(sent[1..]) + suffix))
    ensures OciPairs(sent) + suffix == OciKey(sent[0].key) + rest && |rest| >= 8
  {
    FourParts(OciKey(sent[0].key), OciValue(sent[0].value), Le32(sent[0].flags), OciPairs(sent[1..]), suffix);
  }

  lemma ListIsFound(before: seq<byte>, sent: seq<Sent>, suffix: seq<byte>)
    requires sent != [] && AllReadable(sent) && |sent[0].key| >= 4 && StartsAsAuthKey(sent[0].key)
    requires NoFalseMatch(before, OciPairs(sent) + suffix)
    ensures IsFirstStart(before + (OciPairs(sent) + suffix), |before|)
  {
    var key := sent[0].key;
    var rest := OciValue(sent[0].value) + (Le32(sent[0].flags) + (OciPairs(sent[1..]) + suffix));
    ListBeginsWithKey(sent, suffix, rest);
    ListStartsHere(before, key, rest);
    forall j: nat | j < |before|
      ensures !IsListStart(before + (OciKey(key) + rest), j)
    {
      NoStartBefore(before, key, rest, j);
    }
  }

  // A name in front of the list is found whole: its bytes are all above 30, so
  // none of them passes for a length.
  lemma NameIsFound(lead: seq<byte>, user: seq<byte>, payload: seq<byte>, start: nat, name: Option<seq<byte>>)
    requires 1 <= |user| <= 30 && (forall c <- user :: 33 <= c <= 126) && start == |lead| + 1 + |user| <= |payload|
    requires payload[..start] == lead + [|user|] + user
    requires IsName(payload, start, name)
    ensures name == Some(user)
  {
    assert forall k | 0 <= k < start :: payload[k] == payload[..start][k];
    assert payload[start - |user|..start] == user;
    assert forall k | 0 <= k < |user| :: user[k] in user;
    assert NameBefore(payload, start, |user|);
    forall n | 1 <= n < |user|
      ensures !NameBefore(payload, start, n)
    {
      assert payload[start - 1 - n] == user[|user| - 1 - n];
    }
  }

  // Whatever is found is a graphic name of up to 30 bytes, after its length.
  lemma NamesAreGraphic(payload: seq<byte>, start: nat, name: Option<seq<byte>>)
    requires start <= |payload| && IsName(payload, start, name) && name.Some?
    ensures var n := |name.value|;
      && 1 <= n <= 30 && n < start && payload[start - n - 1] == n && payload[start - n..start] == name.value
      && forall c <- name.value :: 33 <= c <= 126
  {
  }

  // The list ends at the first thing that is no pair: a key length that is 0,
  // above 64, or not repeated, or a key or value that is cut off.
  lemma ListsEnd(s: seq<byte>)
    ensures |s| < 9 ==> TakeOciPairs(s) == []
    ensures |s| >= 9 ==>
      var n := FromLe32(s);
      && (n == 0 || n > 64 || s[4] != n || 5 + n > |s| ==> TakeOciPairs(s) == [])
      && (1 <= n <= 64 && s[4] == n && 5 + n <= |s| ==>
            var rest := s[5 + n..];
            (TakeOciPairs(s) == [] <==> |rest| < 4 || (FromLe32(rest) > 0 && |rest| < 5 + FromLe32(rest))))
  {
  }

  // So the parser, which answers by the first start, answers the name and the
  // pairs that were sent, with whatever pairs the rest of the packet holds.
  lemma RequestIsFound(lead: seq<byte>, user: seq<byte>, sent: seq<Sent>, suffix: seq<byte>,
                       name: Option<seq<byte>>, pairs: seq<Pair>)
    requires 1 <= |user| <= 30 && forall c <- user :: 33 <= c <= 126
    requires sent != [] && AllReadable(sent) && |sent[0].key| >= 4 && StartsAsAuthKey(sent[0].key)
    requires NoFalseMatch(lead + [|user|] + user, OciPairs(sent) + suffix)
    requires var payload := lead + [|user|] + user + (OciPairs(sent) + suffix);
      forall k: nat | IsFirstStart(payload, k) :: IsName(payload, k, name) && pairs == TakeOciPairs(Drop(payload, k))
    ensures name == Some(user) && pairs == Received(sent) + TakeOciPairs(suffix)
  {
    var before, list := lead + [|user|] + user, OciPairs(sent) + suffix;
    var payload := before + list;
    ListIsFound(before, sent, suffix);
    OciListsParseBack(sent, suffix);
    assert payload[..|before|] == before && Drop(payload, |before|) == list;
    NameIsFound(lead, user, payload, |before|, name);
  }
}
