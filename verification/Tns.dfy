/** TNS packet framing: the two header forms, and the splitting of large messages for OCI clients. */
module Tns {
  import opened Wrappers
  import opened Machine

  const MAX_TNS_PACKET_SIZE: nat := 64 * 1024 * 1024
  const OCI_MAX_PACKET: nat := 8111
  const OCI_CHUNK: nat := 8101
  const DATA: byte := 6

  datatype SduMode = Small | Large

  datatype Error = PacketTooLarge(length: nat) | SmallSduOverflow(length: nat)

  // The declared length, and whether the header was read in the legacy form.
  function PacketLength(header: seq<byte>, mode: SduMode): (nat, bool)
    requires |header| == 8
  {
    var smallLength := FromBigEndian(header[..2]);
    match mode
    case Small => (smallLength, true)
    case Large =>
      if header[2] == 0 && header[3] == 0 && 8 <= smallLength then (smallLength, true)
      else (FromBigEndian(header[..4]), false)
  }

  function SmallHeader(length: nat, packetType: byte, flags: byte): (h: seq<byte>)
    ensures |h| == 8
  {
    BigEndian(length, 2) + [0, 0] + [packetType, flags, 0, 0]
  }

  function LargeHeader(length: nat, packetType: byte, flags: byte): (h: seq<byte>)
    ensures |h| == 8
  {
    BigEndian(length, 4) + [packetType, flags, 0, 0]
  }

  // ---- Writing ----------------------------------------------------------

  // The bytes of one frame, as the negotiated mode lays it out.
  function Frame(mode: SduMode, packetType: byte, flags: byte, payload: seq<byte>): Result<seq<byte>, Error> {
    var length := 8 + |payload|;
    if length > MAX_TNS_PACKET_SIZE then Failure(PacketTooLarge(length))
    else if mode.Large? then Success(LargeHeader(length, packetType, flags) + payload)
    else if length > 65535 then Failure(SmallSduOverflow(length))
    else Success(SmallHeader(length, packetType, flags) + payload)
  }

  predicate NeedsSplit(oci: bool, packetType: byte, payload: seq<byte>) {
    oci && packetType == DATA && |payload| > 2 && 8 + |payload| > OCI_MAX_PACKET
  }

  // One packet's bytes after its length: the type, the flags, two zeros, and
  // what it carries.
  predicate Carries(packet: seq<byte>, packetType: byte, flags: byte, payload: seq<byte>) {
    && |packet| == 8 + |payload|
    && packet[4] == packetType && packet[5] == flags && packet[6] == 0 && packet[7] == 0
    && packet[8..] == payload
  }

  // The length, in the first two bytes or in the first four.
  predicate Announces(packet: seq<byte>, mode: SduMode) {
    && |packet| >= 8
    && match mode
       case Small => FromBigEndian(packet[..2]) == |packet| && packet[2] == 0 && packet[3] == 0
       case Large => FromBigEndian(packet[..4]) == |packet|
  }

  lemma {:induction false} FrameCarries(mode: SduMode, packetType: byte, flags: byte, payload: seq<byte>)
    ensures match Frame(mode, packetType, flags, payload)
      case Success(frame) =>
        && Announces(frame, mode) && Carries(frame, packetType, flags, payload)
        && 8 + |payload| <= 0x400_0000 && (mode.Small? ==> 8 + |payload| <= 65535)
      case Failure(PacketTooLarge(n)) => n == 8 + |payload| > 0x400_0000
      case Failure(SmallSduOverflow(n)) => n == 8 + |payload| > 65535 && mode.Small? && n <= 0x400_0000
  {
    var length := 8 + |payload|;
    Powers256();
    if length <= MAX_TNS_PACKET_SIZE {
      BigEndianInverts(length, 4);
      if length <= 65535 {
        BigEndianInverts(length, 2);
        assert SmallHeader(length, packetType, flags)[..2] == BigEndian(length, 2);
        assert (SmallHeader(length, packetType, flags) + payload)[..2] == BigEndian(length, 2);
      }
      assert LargeHeader(length, packetType, flags)[..4] == BigEndian(length, 4);
      assert (LargeHeader(length, packetType, flags) + payload)[..4] == BigEndian(length, 4);
    }
  }

  class TnsStream {
    var mode: SduMode
    var ociClient: bool
    var wire: seq<byte>  // everything handed to the socket so far

    constructor ()
      ensures mode == Small && !ociClient && wire == []
    {
      mode, ociClient, wire := Small, false, [];
    }

    // A split message is read back packet by packet by a client that strips
    // each packet's header and data flags: it gets the message, in packets
    // that all respect the negotiated size, and as few as that size allows.
    method WritePacketFlags(packetType: byte, flags: byte, payload: seq<byte>) returns (r: Result<(), Error>)
      modifies this`wire
      ensures ociClient && packetType == 6 && |payload| > 8103 ==>
        && r.Success? && old(wire) <= wire
        && var packets := Packets(wire[|old(wire)|..]);
        && packets.Some?
        && Reassembled(packets.value) == payload[2..]
        && |packets.value| == (|payload| - 2 + 8100) / 8101
        && forall p <- packets.value :: IsOciPacket(p, packetType, flags, payload[..2])
      ensures !(ociClient && packetType == 6 && |payload| > 8103) ==>
        match Frame(mode, packetType, flags, payload)
        case Success(frame) => r.Success? && wire == old(wire) + frame && Announces(frame, mode) && Carries(frame, packetType, flags, payload)
        case Failure(e) => r == Failure(e) && wire == old(wire)
    {
      FrameCarries(mode, packetType, flags, payload);
      if NeedsSplit(ociClient, packetType, payload) {
        var buf := Split(packetType, flags, payload[..2], payload[2..]);
        wire := wire + buf;
        assert wire[|old(wire)|..] == buf;
        return Success(());
      }
      r := EmitOnePacket(packetType, flags, payload);
    }

    static method Split(packetType: byte, flags: byte, dataFlags: seq<byte>, body: seq<byte>)
      returns (buf: seq<byte>)
      requires |dataFlags| == 2
      ensures Packets(buf).Some? && IsSplit(buf, Packets(buf).value, packetType, flags, dataFlags, body)
    {
      buf := [];
      ghost var packets := [];
      var off := 0;
      assert body[..0] == [];
      while off < |body|
        invariant off <= |body| && (off == |body| || off % OCI_CHUNK == 0)
        invariant IsSplit(buf, packets, packetType, flags, dataFlags, body[..off])
      {
        var end := if off + OCI_CHUNK < |body| then off + OCI_CHUNK else |body|;
        var packet := LargeHeader(10 + (end - off), packetType, flags) + dataFlags + body[off..end];
        SplitOneMore(buf, packets, packetType, flags, dataFlags, body[..off], body[off..end], packet);
        assert body[..off] + body[off..end] == body[..end];
        buf, packets, off := buf + packet, packets + [packet], end;
      }
      assert body[..|body|] == body;
    }

    method EmitOnePacket(packetType: byte, flags: byte, payload: seq<byte>) returns (r: Result<(), Error>)
      modifies this`wire
      ensures match Frame(mode, packetType, flags, payload)
        case Success(frame) => r.Success? && wire == old(wire) + frame && Announces(frame, mode) && Carries(frame, packetType, flags, payload)
        case Failure(e) => r == Failure(e) && wire == old(wire)
    {
      FrameCarries(mode, packetType, flags, payload);
      var length := 8 + |payload|;
      if length > MAX_TNS_PACKET_SIZE {
        return Failure(PacketTooLarge(length));
      }
      var buf := [];
      match mode {
        case Small =>
          if length > 65535 {
            return Failure(SmallSduOverflow(length));
          }
          buf := BigEndian(length, 2) + [0, 0];
        case Large =>
          buf := BigEndian(length, 4);
      }
      buf := buf + [packetType, flags];
      buf := buf + [0, 0];
      buf := buf + payload;
      wire := wire + buf;
      r := Success(());
    }
  }

  // ---- Reading a stream back ---------------------------------------------

  // The large-mode frames a byte stream consists of, if it consists of frames.
  function Packets(stream: seq<byte>): Option<seq<seq<byte>>>
    decreases |stream|
  {
    if stream == [] then Some([])
    else if |stream| < 8 then None
    else
      var length := PacketLength(stream[..8], Large).0;
      if length < 8 || length > |stream| then None
      else match Packets(stream[length..])
        case None => None
        case Some(rest) => Some([stream[..length]] + rest)
  }

  // What is left of DATA packets without their headers and data flags.
  function Reassembled(packets: seq<seq<byte>>): seq<byte> {
    if packets == [] then [] else (if |packets[0]| < 10 then [] else packets[0][10..]) + Reassembled(packets[1..])
  }

  predicate IsOciPacket(p: seq<byte>, packetType: byte, flags: byte, dataFlags: seq<byte>) {
    && |dataFlags| == 2 && 10 < |p| <= 8111
    && FromBigEndian(p[..4]) == |p|
    && Carries(p, packetType, flags, dataFlags + p[10..])
  }

  // The packets in `buf` carry `body`, and there are no more than it takes.
  ghost predicate IsSplit(buf: seq<byte>, packets: seq<seq<byte>>, packetType: byte, flags: byte, dataFlags: seq<byte>, body: seq<byte>) {
    && Packets(buf) == Some(packets)
    && Reassembled(packets) == body
    && |packets| == (|body| + OCI_CHUNK - 1) / OCI_CHUNK
    && forall p <- packets :: IsOciPacket(p, packetType, flags, dataFlags)
  }

  lemma SplitOneMore(buf: seq<byte>, packets: seq<seq<byte>>, packetType: byte, flags: byte,
                     dataFlags: seq<byte>, before: seq<byte>, chunk: seq<byte>, packet: seq<byte>)
    requires |dataFlags| == 2 && 0 < |chunk| <= OCI_CHUNK && |before| % OCI_CHUNK == 0
    requires packet == LargeHeader(10 + |chunk|, packetType, flags) + dataFlags + chunk
    requires IsSplit(buf, packets, packetType, flags, dataFlags, before)
    ensures IsSplit(buf + packet, packets + [packet], packetType, flags, dataFlags, before + chunk)
  {
    PacketIsFramed(packet, packetType, flags, dataFlags, chunk);
    AppendPacket(buf, packets, packet);
    ReassembledAppends(packets, packet);
  }

  lemma {:induction false} ReassembledAppends(packets: seq<seq<byte>>, p: seq<byte>)
    requires |p| >= 10
    ensures Reassembled(packets + [p]) == Reassembled(packets) + p[10..]
  {
    if packets == [] {
      assert Reassembled([p]) == p[10..] + Reassembled([p][1..]);
      assert [] + [p] == [p];
    } else {
      ReassembledAppends(packets[1..], p);
      assert (packets + [p])[1..] == packets[1..] + [p];
      var first := if |packets[0]| < 10 then [] else packets[0][10..];
      assert first + (Reassembled(packets[1..]) + p[10..]) == first + Reassembled(packets[1..]) + p[10..];
    }
  }

  // A large frame shorter than 64 KiB is never mistaken for a legacy one.
  lemma PacketIsFramed(p: seq<byte>, packetType: byte, flags: byte, dataFlags: seq<byte>, body: seq<byte>)
    requires |dataFlags| == 2 && 0 < |body| <= OCI_CHUNK
    requires p == LargeHeader(10 + |body|, packetType, flags) + dataFlags + body
    ensures IsOciPacket(p, packetType, flags, dataFlags)
    ensures PacketLength(p[..8], Large) == (|p|, false)
    ensures p[10..] == body
  {
    assert p[..8] == LargeHeader(|p|, packetType, flags);
    HeaderBytes(|p|);
    assert p[..4] == BigEndian(|p|, 4);
    LargeModeReadsLargeFrames(|p|, packetType, flags);
    assert p[8..] == dataFlags + p[10..];
  }

  lemma {:induction false} AppendPacket(stream: seq<byte>, packets: seq<seq<byte>>, p: seq<byte>)
    requires Packets(stream) == Some(packets)
    requires |p| >= 10 && PacketLength(p[..8], Large).0 == |p|
    ensures Packets(stream + p) == Some(packets + [p])
    decreases |stream|
  {
    if stream == [] {
      LastPacket(p);
      assert packets == [] && packets + [p] == [p] && [] + p == p;
    } else {
      var length := PacketLength(stream[..8], Large).0;
      AppendPacket(stream[length..], packets[1..], p);
      assert (stream + p)[..8] == stream[..8] && (stream + p)[..length] == stream[..length];
      assert (stream + p)[length..] == stream[length..] + p;
      FirstPacket(stream + p, length, packets[1..] + [p]);
      assert (packets + [p])[1..] == packets[1..] + [p];
      assert [packets[0]] + (packets[1..] + [p]) == packets + [p];
    }
  }

  lemma LastPacket(p: seq<byte>)
    requires |p| >= 10 && PacketLength(p[..8], Large).0 == |p|
    ensures Packets(p) == Some([p]) && Reassembled([p]) == p[10..]
  {
    assert p[..|p|] == p && p[|p|..] == [];
    FirstPacket(p, |p|, []);
    assert [p] + [] == [p] && [p][1..] == [];
    assert p[10..] + [] == p[10..];
  }

  lemma FirstPacket(stream: seq<byte>, length: nat, rest: seq<seq<byte>>)
    requires 8 <= length <= |stream| && PacketLength(stream[..8], Large).0 == length
    requires Packets(stream[length..]) == Some(rest)
    ensures Packets(stream) == Some([stream[..length]] + rest)
  {
  }

  // ---- The mixed header forms ----------------------------------------------

  lemma HeaderBytes(length: nat)
    requires length <= MAX_TNS_PACKET_SIZE
    ensures var h := BigEndian(length, 4);
      && FromBigEndian(h) == length
      && FromBigEndian(h[..2]) == length / 65536
      && (h[2] == 0 && h[3] == 0 <==> length % 65536 == 0)
  {
    Powers256();
    BigEndianInverts(length, 4);
    var h := BigEndian(length, 4);
    assert h[3] == length % 256 && h[..3] == BigEndian(length / 256, 3);
    assert h[2] == length / 256 % 256 && h[..2] == BigEndian(length / 256 / 256, 2);
    BigEndianInverts(length / 256 / 256, 2);
  }

  // In large mode a large frame's length is recovered, except exactly when its
  // low half is zero and its high half passes for a legacy length.
  lemma LargeModeReadsLargeFrames(length: nat, packetType: byte, flags: byte)
    requires 8 <= length <= MAX_TNS_PACKET_SIZE
    ensures PacketLength(LargeHeader(length, packetType, flags), Large) == (length, false)
       <==> !(length % 65536 == 0 && length >= 524288)
    ensures length % 65536 == 0 && length >= 524288 ==>
      PacketLength(LargeHeader(length, packetType, flags), Large) == (length / 65536, true)
  {
    HeaderBytes(length);
    var h, full := BigEndian(length, 4), LargeHeader(length, packetType, flags);
    assert full[..4] == h && full[..2] == h[..2];
  }

  // Legacy frames are recovered in both modes.
  lemma BothModesReadSmallFrames(length: nat, packetType: byte, flags: byte, mode: SduMode)
    requires 8 <= length <= 65535
    ensures PacketLength(SmallHeader(length, packetType, flags), mode) == (length, true)
  {
    Powers256();
    BigEndianInverts(length, 2);
    assert SmallHeader(length, packetType, flags)[..2] == BigEndian(length, 2);
  }

  // Every frame the writer emits in a mode is measured right by a reader in
  // that mode, apart from the misread large lengths.
  lemma EmittedFramesAreMeasured(mode: SduMode, packetType: byte, flags: byte, payload: seq<byte>)
    requires Frame(mode, packetType, flags, payload).Success?
    ensures var frame := Frame(mode, packetType, flags, payload).value;
      PacketLength(frame[..8], mode).0 == |frame|
      <==> !(mode.Large? && |frame| % 65536 == 0 && |frame| >= 524288)
  {
    var frame := Frame(mode, packetType, flags, payload).value;
    var length := 8 + |payload|;
    if mode.Large? {
      LargeModeReadsLargeFrames(length, packetType, flags);
      assert frame[..8] == LargeHeader(length, packetType, flags);
    } else {
      BothModesReadSmallFrames(length, packetType, flags, mode);
      assert frame[..8] == SmallHeader(length, packetType, flags);
    }
  }

  // ---- Packets read back -----------------------------------------------------

  datatype Packet = Packet(packetType: byte, flags: byte, payload: seq<byte>)

  datatype ReadError = Incomplete | InvalidLength(length: nat) | InvalidType(packetType: byte)

  predicate KnownType(packetType: byte) {
    1 <= packetType <= 7 || packetType == 9 || packetType == 11 || 12 <= packetType <= 14
  }

  // The first packet of a stream, and what follows it.
  function ReadPacket(stream: seq<byte>, mode: SduMode): Result<(Packet, seq<byte>), ReadError> {
    if |stream| < 8 then Failure(Incomplete)
    else
      var length := PacketLength(stream[..8], mode).0;
      if !(8 <= length <= MAX_TNS_PACKET_SIZE) then Failure(InvalidLength(length))
      else if !KnownType(stream[4]) then Failure(InvalidType(stream[4]))
      else if |stream| < length then Failure(Incomplete)
      else Success((Packet(stream[4], stream[5], stream[8..length]), stream[length..]))
  }

  // The next `n` packets of a stream, and what follows them.
  function ReadPackets(stream: seq<byte>, mode: SduMode, n: nat): Result<(seq<Packet>, seq<byte>), ReadError>
    decreases n
  {
    if n == 0 then Success(([], stream))
    else
      var (first, rest) :- ReadPacket(stream, mode);
      var (more, last) :- ReadPackets(rest, mode, n - 1);
      Success(([first] + more, last))
  }

  // A packet that can be emitted, and whose length its own mode measures right.
  predicate ReadsBack(mode: SduMode, p: Packet) {
    var length := 8 + |p.payload|;
    && KnownType(p.packetType) && length <= MAX_TNS_PACKET_SIZE
    && (if mode.Large? then !(length % 65536 == 0 && length >= 524288) else length <= 65535)
  }

  predicate AllReadBack(mode: SduMode, packets: seq<Packet>) {
    forall k | 0 <= k < |packets| :: ReadsBack(mode, packets[k])
  }

  function FrameOf(mode: SduMode, p: Packet): seq<byte>
    requires ReadsBack(mode, p)
  {
    Frame(mode, p.packetType, p.flags, p.payload).value
  }

  function Emitted(mode: SduMode, packets: seq<Packet>): seq<byte>
    requires AllReadBack(mode, packets)
  {
    if packets == [] then [] else FrameOf(mode, packets[0]) + Emitted(mode, packets[1..])
  }

  lemma PacketReadsBack(mode: SduMode, p: Packet, suffix: seq<byte>)
    requires ReadsBack(mode, p)
    ensures ReadPacket(FrameOf(mode, p) + suffix, mode) == Success((p, suffix))
  {
    var frame := FrameOf(mode, p);
    var stream, length := frame + suffix, |frame|;
    FrameCarries(mode, p.packetType, p.flags, p.payload);
    EmittedFramesAreMeasured(mode, p.packetType, p.flags, p.payload);
    assert stream[..8] == frame[..8] && stream[4] == frame[4] && stream[5] == frame[5];
    assert stream[8..length] == frame[8..] && stream[length..] == suffix;
  }

  lemma ReadOneMore(stream: seq<byte>, mode: SduMode, first: Packet, rest: seq<byte>, more: seq<Packet>, last: seq<byte>)
    requires ReadPacket(stream, mode) == Success((first, rest)) && ReadPackets(rest, mode, |more|) == Success((more, last))
    ensures ReadPackets(stream, mode, 1 + |more|) == Success(([first] + more, last))
  {
  }

  // Any packets emitted one after the other come back as they were, type,
  // flags and payload, and nothing of what follows them is touched.
  lemma {:induction false} PacketsReadBack(mode: SduMode, packets: seq<Packet>, suffix: seq<byte>)
    requires AllReadBack(mode, packets)
    ensures ReadPackets(Emitted(mode, packets) + suffix, mode, |packets|) == Success((packets, suffix))
    decreases |packets|
  {
    if packets == [] {
      assert Emitted(mode, packets) + suffix == suffix;
    } else {
      var first, more := packets[0], packets[1..];
      var rest := Emitted(mode, more) + suffix;
      assert Emitted(mode, packets) + suffix == FrameOf(mode, first) + rest;
      PacketReadsBack(mode, first, rest);
      PacketsReadBack(mode, more, suffix);
      ReadOneMore(FrameOf(mode, first) + rest, mode, first, rest, more, suffix);
      assert [first] + more == packets;
    }
  }
}
