/** The ARP packet codec (pkg/daemon/arp/packet.go), after the "Packet format" section of RFC 826. */
module Arp {
  import opened Wrappers

  type byte = x: int | 0 <= x < 256
  type uint16 = x: int | 0 <= x < 65536

  datatype Fields = Fields(hardwareType: uint16, protocolType: uint16, hardwareLength: byte, ipLength: byte,
                           operation: uint16,
                           senderHardware: seq<byte>, senderIP: seq<byte>, targetHardware: seq<byte>,
                           targetIP: seq<byte>)

  /** The bytes a packet takes on the wire. */
  function WireSize(hardwareLength: byte, ipLength: byte): nat
  {
    8 + 2 * hardwareLength + 2 * ipLength
  }

  /** The address fields have the lengths the packet records. */
  predicate Consistent(p: Fields)
  {
    |p.senderHardware| == |p.targetHardware| == p.hardwareLength && |p.senderIP| == |p.targetIP| == p.ipLength
  }

  // ---- The format ----

  function Put16(v: uint16): (bs: seq<byte>)
    ensures |bs| == 2
  {
    [v / 256, v % 256]
  }

  function Get16(bs: seq<byte>): uint16
    requires |bs| == 2
  {
    var hi: int, lo: int := bs[0], bs[1];
    256 * hi + lo
  }

  /** `copy` into `n` zero bytes: what does not fit is dropped, what is missing stays zero. */
  function Slot(bs: seq<byte>, n: nat): (r: seq<byte>)
    ensures |r| == n && forall j :: 0 <= j < n ==> r[j] == if j < |bs| then bs[j] else 0
  {
    if n <= |bs| then bs[..n] else bs + seq(n - |bs|, _ => 0)
  }

  function Header(p: Fields): (bs: seq<byte>)
    ensures |bs| == 8
  {
    Put16(p.hardwareType) + Put16(p.protocolType) + [p.hardwareLength, p.ipLength] + Put16(p.operation)
  }

  function Wire(p: Fields): (bs: seq<byte>)
    ensures |bs| == WireSize(p.hardwareLength, p.ipLength)
  {
    Header(p) + Slot(p.senderHardware, p.hardwareLength) + Slot(p.senderIP, p.ipLength)
    + Slot(p.targetHardware, p.hardwareLength) + Slot(p.targetIP, p.ipLength)
  }

  /** The buffer size is computed in eight bits, so a packet that needs more than 255 bytes panics. */
  function Encode(p: Fields): Result<seq<byte>>
  {
    if WireSize(p.hardwareLength, p.ipLength) > 255 then Err else Ok(Wire(p))
  }

  /** Two 124-byte hardware and two 4-byte protocol addresses need 264 bytes, which is 8 in eight bits. */
  lemma {:induction false} EncodePanics(a: seq<byte>, ip: seq<byte>)
    requires |a| == 124 && |ip| == 4
    ensures Consistent(Fields(1, 0x0800, 124, 4, 1, a, ip, a, ip))
    ensures Encode(Fields(1, 0x0800, 124, 4, 1, a, ip, a, ip)).Err?
  {}

  function Decode(b: seq<byte>): Result<Fields>
  {
    if |b| < 8 || |b| < WireSize(b[4], b[5]) then Err
    else
      var ml: int, il: int := b[4], b[5];
      Ok(Fields(Get16(b[0..2]), Get16(b[2..4]), ml, il, Get16(b[6..8]),
                b[8..8 + ml], b[8 + ml..8 + ml + il], b[8 + ml + il..8 + 2 * ml + il],
                b[8 + 2 * ml + il..8 + 2 * ml + 2 * il]))
  }

  // ---- The bytes of the format ----

  /** Two bytes of the buffer, the more significant one first, spell the number. */
  ghost predicate BigEndian(b: seq<byte>, at: nat, v: int)
  {
    at + 1 < |b| && (b[at] as int) * 256 + b[at + 1] as int == v
  }

  /** `n` bytes of the buffer hold the address, cut or zero-extended to that length. */
  ghost predicate HoldsAddress(b: seq<byte>, at: nat, n: nat, address: seq<byte>)
  {
    at + n <= |b| && forall j :: 0 <= j < n ==> b[at + j] == if j < |address| then address[j] else 0
  }

  ghost predicate HoldsHeader(b: seq<byte>, hardwareType: int, protocolType: int, hardwareLength: int, ipLength: int,
                              operation: int)
  {
    && |b| >= 8
    && BigEndian(b, 0, hardwareType) && BigEndian(b, 2, protocolType)
    && b[4] == hardwareLength && b[5] == ipLength
    && BigEndian(b, 6, operation)
  }

  /** The buffer holds the packet as the format lays it out. */
  ghost predicate Layout(p: Fields, b: seq<byte>)
  {
    var ml: nat, il: nat := p.hardwareLength, p.ipLength;
    && HoldsHeader(b, p.hardwareType, p.protocolType, ml, il, p.operation)
    && HoldsAddress(b, 8, ml, p.senderHardware) && HoldsAddress(b, 8 + ml, il, p.senderIP)
    && HoldsAddress(b, 8 + ml + il, ml, p.targetHardware) && HoldsAddress(b, 8 + ml + il + ml, il, p.targetIP)
  }

  lemma {:induction false} SlotHolds(b: seq<byte>, at: nat, n: nat, address: seq<byte>)
    requires at + n <= |b| && b[at..at + n] == Slot(address, n)
    ensures HoldsAddress(b, at, n, address)
  {
    forall j | 0 <= j < n ensures b[at + j] == if j < |address| then address[j] else 0 {
      assert b[at..at + n][j] == b[at + j];
    }
  }

  lemma {:induction false} HeaderHolds(p: Fields, b: seq<byte>)
    requires |b| >= 8 && b[..8] == Header(p)
    ensures HoldsHeader(b, p.hardwareType, p.protocolType, p.hardwareLength, p.ipLength, p.operation)
  {
    HeaderParts(p, b);
    assert b[0] == b[0..2][0] && b[1] == b[0..2][1] && b[2] == b[2..4][0] && b[3] == b[2..4][1];
    assert b[6] == b[6..8][0] && b[7] == b[6..8][1];
  }

  lemma {:induction false} ReadHeader(b: seq<byte>)
    requires |b| >= 8
    ensures HoldsHeader(b, Get16(b[0..2]), Get16(b[2..4]), b[4], b[5], Get16(b[6..8]))
  {
    assert b[0] == b[0..2][0] && b[1] == b[0..2][1] && b[2] == b[2..4][0] && b[3] == b[2..4][1];
    assert b[6] == b[6..8][0] && b[7] == b[6..8][1];
  }

  /** The wire form of a packet is laid out as the format says, whatever the packet holds. */
  lemma {:induction false} WireLayout(p: Fields, padding: seq<byte>)
    ensures Layout(p, Wire(p) + padding)
  {
    var b := Wire(p) + padding;
    var ml: nat, il: nat := p.hardwareLength, p.ipLength;
    WireParts(p, padding);
    HeaderHolds(p, b);
    SlotHolds(b, 8, ml, p.senderHardware);
    SlotHolds(b, 8 + ml, il, p.senderIP);
    SlotHolds(b, 8 + ml + il, ml, p.targetHardware);
    SlotHolds(b, 8 + ml + il + ml, il, p.targetIP);
  }

  /** A buffer is refused exactly when it is shorter than the header or than the addresses its header announces. */
  lemma {:induction false} DecodeRefuses(b: seq<byte>)
    ensures Decode(b).Err? <==> |b| < 8 || |b| < 8 + 2 * (b[4] as int) + 2 * (b[5] as int)
  {}

  /** A parsed packet has consistent addresses, and the buffer holds it as the format lays it out. */
  lemma {:induction false} DecodedLayout(b: seq<byte>)
    requires Decode(b).Ok?
    ensures Consistent(Decode(b).value) && Layout(Decode(b).value, b)
  {
    var p := Decode(b).value;
    var ml: nat, il: nat := p.hardwareLength, p.ipLength;
    HeaderOfDecoded(b);
    HeaderHolds(p, b);
    SlotIsIdentity(p.senderHardware, ml);
    SlotIsIdentity(p.senderIP, il);
    SlotIsIdentity(p.targetHardware, ml);
    SlotIsIdentity(p.targetIP, il);
    SlotHolds(b, 8, ml, p.senderHardware);
    SlotHolds(b, 8 + ml, il, p.senderIP);
    SlotHolds(b, 8 + ml + il, ml, p.targetHardware);
    SlotHolds(b, 8 + ml + il + ml, il, p.targetIP);
  }

  /** The layout determines the packet: a buffer holds at most one packet with consistent addresses. */
  lemma {:induction false} LayoutIsUnique(p: Fields, q: Fields, b: seq<byte>)
    requires Consistent(p) && Consistent(q) && Layout(p, b) && Layout(q, b)
    ensures p == q
  {
    SameAddress(b, 8, p.senderHardware, q.senderHardware);
    SameAddress(b, 8 + p.hardwareLength, p.senderIP, q.senderIP);
    SameAddress(b, 8 + p.hardwareLength + p.ipLength, p.targetHardware, q.targetHardware);
    SameAddress(b, 8 + p.hardwareLength + p.ipLength + p.hardwareLength, p.targetIP, q.targetIP);
  }

  lemma {:induction false} SameAddress(b: seq<byte>, at: nat, x: seq<byte>, y: seq<byte>)
    requires |x| == |y| && HoldsAddress(b, at, |x|, x) && HoldsAddress(b, at, |y|, y)
    ensures x == y
  {
    forall j | 0 <= j < |x| ensures x[j] == y[j] { assert b[at + j] == x[j]; }
  }

  // ---- Round trips ----

  /** The five parts of an encoded packet, at their offsets. */
  lemma {:induction false} WireParts(p: Fields, padding: seq<byte>)
    ensures var b := Wire(p) + padding; var ml: int, il: int := p.hardwareLength, p.ipLength;
            && b[..8] == Header(p)
            && b[8..8 + ml] == Slot(p.senderHardware, ml)
            && b[8 + ml..8 + ml + il] == Slot(p.senderIP, il)
            && b[8 + ml + il..8 + 2 * ml + il] == Slot(p.targetHardware, ml)
            && b[8 + 2 * ml + il..8 + 2 * ml + 2 * il] == Slot(p.targetIP, il)
  {}

  lemma {:induction false} HeaderParts(p: Fields, b: seq<byte>)
    requires |b| >= 8 && b[..8] == Header(p)
    ensures b[0..2] == Put16(p.hardwareType) && b[2..4] == Put16(p.protocolType) && b[6..8] == Put16(p.operation)
    ensures b[4] == p.hardwareLength && b[5] == p.ipLength
  {
    assert b[0..2] == b[..8][0..2] && b[2..4] == b[..8][2..4] && b[6..8] == b[..8][6..8];
    assert b[4] == b[..8][4] && b[5] == b[..8][5];
  }

  /** Decoding the wire form plus any padding gives the packet with every address cut or zero-extended to its recorded
      length. */
  lemma {:induction false} DecodeOfWire(p: Fields, padding: seq<byte>)
    ensures Decode(Wire(p) + padding) ==
            Ok(p.(senderHardware := Slot(p.senderHardware, p.hardwareLength), senderIP := Slot(p.senderIP, p.ipLength),
                  targetHardware := Slot(p.targetHardware, p.hardwareLength), targetIP := Slot(p.targetIP, p.ipLength)))
  {
    WireParts(p, padding);
    HeaderParts(p, Wire(p) + padding);
  }

  lemma {:induction false} SlotIsIdentity(bs: seq<byte>, n: nat)
    ensures Slot(bs, n) == bs <==> |bs| == n
  {}

  /** Marshalling and unmarshalling, with any padding, gives the packet back exactly when its addresses have their
      recorded lengths. */
  lemma {:induction false} RoundTrip(p: Fields, padding: seq<byte>)
    requires Encode(p).Ok?
    ensures Decode(Encode(p).value + padding) == Ok(p) <==> Consistent(p)
  {
    DecodeOfWire(p, padding);
    SlotIsIdentity(p.senderHardware, p.hardwareLength);
    SlotIsIdentity(p.senderIP, p.ipLength);
    SlotIsIdentity(p.targetHardware, p.hardwareLength);
    SlotIsIdentity(p.targetIP, p.ipLength);
  }

  /** Marshalling a parsed buffer reproduces the buffer up to the packet's own size, unless that size exceeds 255
      bytes. */
  lemma {:induction false} Reproduces(b: seq<byte>)
    requires Decode(b).Ok?
    ensures var p := Decode(b).value; var size := WireSize(p.hardwareLength, p.ipLength);
            size <= |b| && Encode(p) == if size <= 255 then Ok(b[..size]) else Err
  {
    var p := Decode(b).value;
    HeaderOfDecoded(b);
    SlotIsIdentity(p.senderHardware, p.hardwareLength);
    SlotIsIdentity(p.senderIP, p.ipLength);
    SlotIsIdentity(p.targetHardware, p.hardwareLength);
    SlotIsIdentity(p.targetIP, p.ipLength);
    FiveSlices(b, p.hardwareLength, p.ipLength);
  }

  lemma {:induction false} HeaderOfDecoded(b: seq<byte>)
    requires Decode(b).Ok?
    ensures Header(Decode(b).value) == b[..8]
  {}

  lemma {:induction false} FiveSlices(b: seq<byte>, ml: int, il: int)
    requires 0 <= ml && 0 <= il && 8 + 2 * ml + 2 * il <= |b|
    ensures b[..8] + b[8..8 + ml] + b[8 + ml..8 + ml + il] + b[8 + ml + il..8 + 2 * ml + il]
            + b[8 + 2 * ml + il..8 + 2 * ml + 2 * il]
            == b[..8 + 2 * ml + 2 * il]
  {}

  // ---- Building a packet ----

  const BROADCAST: seq<byte> := [255, 255, 255, 255, 255, 255]

  /** `net.IP.To4`: four bytes, or the last four of an IPv4-mapped address. */
  function To4(ip: seq<byte>): (r: Option<seq<byte>>)
    ensures r.Some? ==> |r.value| == 4
  {
    if |ip| == 4 then Some(ip)
    else if |ip| == 16 && ip[..10] == seq(10, _ => 0) && ip[10..12] == [255, 255] then Some(ip[12..])
    else None
  }

  function NewPacket(op: uint16, srcHW: seq<byte>, srcIP: seq<byte>, dstHW: seq<byte>, dstIP: seq<byte>): Result<Fields>
  {
    if |srcHW| < 6 || |dstHW| < 6 then Err
    else if dstHW != BROADCAST && |srcHW| != |dstHW| then Err
    else
      match (To4(srcIP), To4(dstIP))
      case (Some(s), Some(d)) => Ok(Fields(1, 0x0800, |srcHW| % 256, |s|, op, srcHW, s, dstHW, d))
      case _ => Err
  }

  ghost predicate IsMapped(ip: seq<byte>)
  {
    |ip| == 16 && (forall j :: 0 <= j < 10 ==> ip[j] == 0) && ip[10] == 255 && ip[11] == 255
  }

  /** The address as four bytes: a 4-byte address itself, or the end of a 16-byte one that starts with ten zero bytes
      and two bytes of ones. */
  lemma {:induction false} To4Means(ip: seq<byte>)
    ensures |ip| == 4 ==> To4(ip) == Some(ip)
    ensures |ip| != 4 && To4(ip).Some? ==>
              IsMapped(ip) && HoldsAddress(ip, 12, 4, To4(ip).value)
    ensures IsMapped(ip) ==> To4(ip).Some?
  {
    if |ip| == 16 {
      assert ip[10..12][0] == ip[10] && ip[10..12][1] == ip[11];
      assert |ip[10..12]| == 2;
      if To4(ip).Some? { forall j | 0 <= j < 10 ensures ip[j] == 0 { assert ip[..10][j] == seq(10, _ => 0)[j]; } }
      if IsMapped(ip) { assert ip[..10] == seq(10, _ => 0); }
    }
  }

  /** A new packet is refused exactly for a hardware address under six bytes, a target other than the broadcast address
      whose length is not the sender's, or an address that is not IPv4; otherwise it is an Ethernet and IPv4 packet with
      each argument in its own field. */
  lemma {:induction false} NewPacketMeans(op: uint16, srcHW: seq<byte>, srcIP: seq<byte>, dstHW: seq<byte>,
                                          dstIP: seq<byte>)
    ensures var r := NewPacket(op, srcHW, srcIP, dstHW, dstIP);
            && (r.Err? <==> || |srcHW| < 6 || |dstHW| < 6
                            || (|srcHW| != |dstHW| && dstHW != [255, 255, 255, 255, 255, 255])
                            || To4(srcIP).None? || To4(dstIP).None?)
            && (r.Ok? ==> && r.value.hardwareType == 1 && r.value.protocolType == 0x0800 && r.value.operation == op
                          && r.value.senderHardware == srcHW && r.value.targetHardware == dstHW
                          && Some(r.value.senderIP) == To4(srcIP) && Some(r.value.targetIP) == To4(dstIP)
                          && r.value.ipLength == 4 && (|srcHW| < 256 ==> r.value.hardwareLength == |srcHW|))
  {}

  /** A new packet survives the wire exactly when both hardware addresses have the same length of at most 119 bytes; a
      broadcast target beside a longer sender address does not. */
  lemma {:induction false} NewPacketSurvives(op: uint16, srcHW: seq<byte>, srcIP: seq<byte>, dstHW: seq<byte>,
                                             dstIP: seq<byte>,
                                             padding: seq<byte>)
    requires NewPacket(op, srcHW, srcIP, dstHW, dstIP).Ok?
    ensures var p := NewPacket(op, srcHW, srcIP, dstHW, dstIP).value;
            (Encode(p).Ok? && Decode(Encode(p).value + padding) == Ok(p)) <==> |srcHW| == |dstHW| <= 119
  {
    Survives(NewPacket(op, srcHW, srcIP, dstHW, dstIP).value, padding);
  }

  /** An 8-byte sender beside the broadcast target is accepted, and its target comes back with two more zero bytes. */
  lemma {:induction false} NewPacketLost(padding: seq<byte>)
    ensures var hw, ip: seq<byte> := [1, 2, 3, 4, 5, 6, 7, 8], [10, 0, 0, 1];
            var r := NewPacket(1, hw, ip, BROADCAST, ip);
            && r.Ok? && Encode(r.value).Ok?
            && Decode(Encode(r.value).value + padding) == Ok(r.value.(targetHardware := BROADCAST + [0, 0]))
  {
    var hw, ip: seq<byte> := [1, 2, 3, 4, 5, 6, 7, 8], [10, 0, 0, 1];
    var p := NewPacket(1, hw, ip, BROADCAST, ip).value;
    DecodeOfWire(p, padding);
    assert Slot(p.senderHardware, 8) == hw && Slot(p.senderIP, 4) == ip && Slot(p.targetIP, 4) == ip;
    assert Slot(p.targetHardware, 8) == BROADCAST + [0, 0];
  }

  lemma {:induction false} Survives(p: Fields, padding: seq<byte>)
    ensures Encode(p).Ok? && Decode(Encode(p).value + padding) == Ok(p) <==>
            Consistent(p) && WireSize(p.hardwareLength, p.ipLength) <= 255
  {
    if Encode(p).Ok? {
      RoundTrip(p, padding);
    }
  }

  // ---- The code ----

  /** The buffer from `at` on is still zero. */
  ghost predicate ZeroFrom(b: array<byte>, at: nat)
    reads b
  {
    forall i :: at <= i < b.Length ==> b[i] == 0
  }

  /** `copy(b[at:at+n], src)` into a part of the buffer that is still zero; the slice panics when it leaves the
      buffer. */
  method Copy(b: array<byte>, at: nat, n: nat, src: seq<byte>) returns (ok: bool)
    requires at <= b.Length && ZeroFrom(b, at)
    modifies b
    ensures ok <==> at + n <= b.Length
    ensures ok ==> b[..at + n] == old(b[..at]) + Slot(src, n) && ZeroFrom(b, at + n)
  {
    if at + n > b.Length {
      return false;
    }
    var i := 0;
    while i < n && i < |src|
      invariant 0 <= i <= n && i <= |src|
      invariant b[at..at + i] == src[..i] && ZeroFrom(b, at + i) && b[..at] == old(b[..at])
    {
      b[at + i] := src[i];
      i := i + 1;
    }
    forall j | 0 <= j < n ensures b[at..at + n][j] == Slot(src, n)[j] {
      if j < i { assert b[at..at + i][j] == src[..i][j]; }
    }
    assert b[..at + n] == b[..at] + b[at..at + n];
    return true;
  }

  /** The fixed-length fields; the buffer is too short exactly when it has fewer than eight bytes. */
  method PutHeader(b: array<byte>, p: Fields) returns (ok: bool)
    requires ZeroFrom(b, 0)
    modifies b
    ensures ok <==> b.Length >= 8
    ensures ok ==> b[..8] == Header(p) && ZeroFrom(b, 8)
  {
    assert b[..0] == [];
    ok := Copy(b, 0, 2, Put16(p.hardwareType));
    if !ok { return; }
    ok := Copy(b, 2, 2, Put16(p.protocolType));
    if !ok { return; }
    ok := Copy(b, 4, 2, [p.hardwareLength, p.ipLength]);
    if !ok { return; }
    ok := Copy(b, 6, 2, Put16(p.operation));
    WholeSlots(p);
  }

  lemma {:induction false} WholeSlots(p: Fields)
    ensures Slot(Put16(p.hardwareType), 2) == Put16(p.hardwareType)
    ensures Slot(Put16(p.protocolType), 2) == Put16(p.protocolType)
    ensures Slot([p.hardwareLength, p.ipLength], 2) == [p.hardwareLength, p.ipLength]
    ensures Slot(Put16(p.operation), 2) == Put16(p.operation)
  {
    SlotIsIdentity(Put16(p.hardwareType), 2);
    SlotIsIdentity(Put16(p.protocolType), 2);
    SlotIsIdentity([p.hardwareLength, p.ipLength], 2);
    SlotIsIdentity(Put16(p.operation), 2);
  }

  /** Fill a zero buffer at moving offsets; some slice leaves the buffer exactly when the buffer is shorter than the
      packet. */
  method Fill(b: array<byte>, p: Fields) returns (ok: bool)
    requires ZeroFrom(b, 0)
    modifies b
    ensures ok <==> b.Length >= WireSize(p.hardwareLength, p.ipLength)
    ensures ok ==> b[..WireSize(p.hardwareLength, p.ipLength)] == Wire(p)
  {
    ok := PutHeader(b, p);
    if !ok { return; }
    var n := 8;
    var hal: nat, pl: nat := p.hardwareLength, p.ipLength;
    ok := Copy(b, n, hal, p.senderHardware);
    if !ok { return; }
    n := n + hal;
    ok := Copy(b, n, pl, p.senderIP);
    if !ok { return; }
    n := n + pl;
    ok := Copy(b, n, hal, p.targetHardware);
    if !ok { return; }
    n := n + hal;
    ok := Copy(b, n, pl, p.targetIP);
  }

  /** Arithmetic in eight bits. */
  function Uint8(x: nat): nat
  {
    x % 256
  }

  /** The size of the allocated buffer. */
  function BufferSize(hardwareLength: byte, ipLength: byte): nat
  {
    Uint8(8 + Uint8(ipLength as nat * 2) + Uint8(hardwareLength as nat * 2))
  }

  /** The buffer is as long as the packet, and no shorter, exactly when the packet fits 255 bytes. */
  lemma {:induction false} BufferFits(hardwareLength: byte, ipLength: byte)
    ensures BufferSize(hardwareLength, ipLength) <= WireSize(hardwareLength, ipLength)
    ensures BufferSize(hardwareLength, ipLength) == WireSize(hardwareLength, ipLength) <==>
            WireSize(hardwareLength, ipLength) <= 255
  {}

  class Packet {
    var hardwareType: uint16
    var protocolType: uint16
    var hardwareLength: byte
    var ipLength: byte
    var operation: uint16
    var senderHardware: seq<byte>
    var senderIP: seq<byte>
    var targetHardware: seq<byte>
    var targetIP: seq<byte>

    function Value(): Fields
      reads this
    {
      Fields(hardwareType, protocolType, hardwareLength, ipLength, operation, senderHardware, senderIP,
             targetHardware, targetIP)
    }

    constructor (p: Fields)
      ensures Value() == p
    {
      hardwareType, protocolType, hardwareLength, ipLength := p.hardwareType, p.protocolType, p.hardwareLength,
          p.ipLength;
      operation, senderHardware, senderIP := p.operation, p.senderHardware, p.senderIP;
      targetHardware, targetIP := p.targetHardware, p.targetIP;
    }

    method MarshalBinary() returns (r: Result<seq<byte>>)
      ensures r == Encode(Value())
      ensures r.Ok? ==> |r.value| == 8 + 2 * hardwareLength + 2 * ipLength && Layout(Value(), r.value)
    {
      var size := BufferSize(hardwareLength, ipLength);
      BufferFits(hardwareLength, ipLength);
      var b := new byte[size](_ => 0);
      var ok := Fill(b, Value());
      if !ok {
        return Err;
      }
      assert b[..] == b[..size];
      WireLayout(Value(), []);
      assert Wire(Value()) + [] == b[..];
      return Ok(b[..]);
    }

    /** When the addresses are cut short the fixed-length fields are already overwritten. */
    method UnmarshalBinary(b: seq<byte>) returns (ok: bool)
      modifies this
      ensures ok <==> Decode(b).Ok?
      ensures ok ==> Value() == Decode(b).value
      ensures |b| < 8 ==> Value() == old(Value())
      ensures !ok && |b| >= 8 ==>
                && HoldsHeader(b, hardwareType, protocolType, hardwareLength, ipLength, operation)
                && senderHardware == old(senderHardware) && senderIP == old(senderIP)
                && targetHardware == old(targetHardware) && targetIP == old(targetIP)
    {
      if |b| < 8 {
        return false;
      }
      hardwareType := Get16(b[0..2]);
      protocolType := Get16(b[2..4]);
      hardwareLength, ipLength := b[4], b[5];
      operation := Get16(b[6..8]);
      ReadHeader(b);
      var n := 8;
      var ml: nat, il: nat := hardwareLength, ipLength;
      if |b| < n + ml * 2 + il * 2 {
        return false;
      }
      senderHardware := b[n..n + ml];
      n := n + ml;
      senderIP := b[n..n + il];
      n := n + il;
      targetHardware := b[n..n + ml];
      n := n + ml;
      targetIP := b[n..n + il];
      return true;
    }
  }
}
