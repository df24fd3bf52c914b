/** Tunnel packets: a 24-byte header and a payload of sub-packets, each a request id, a
    length and that many bytes.  All numbers are big-endian. */
module TunnelPacket {
  import opened Optional

  type Byte = x: int | 0 <= x < 0x100
  type U16 = x: int | 0 <= x < 0x1_0000
  type U32 = x: int | 0 <= x < 0x1_0000_0000

  const HEADER_SIZE: nat := 24
  const MAX_HOPS: nat := 4

  datatype SubPacket = SubPacket(userID: U32, data: seq<Byte>)

  datatype Header = Header(hopPos: Byte, hopIP: seq<U32>, payloadLen: U16, port: U16, protocol: Byte)

  // ---------- Numbers ----------

  function Be16(x: U16): (b: seq<Byte>)
    ensures |b| == 2
  {
    [x / 0x100, x % 0x100]
  }

  function Be32(x: U32): (b: seq<Byte>)
    ensures |b| == 4
  {
    [x / 0x100_0000, x / 0x1_0000 % 0x100, x / 0x100 % 0x100, x % 0x100]
  }

  function Un16(b: seq<Byte>): U16
    requires |b| == 2
  {
    b[0] as int * 0x100 + b[1] as int
  }

  function Un32(b: seq<Byte>): U32
    requires |b| == 4
  {
    b[0] as int * 0x100_0000 + b[1] as int * 0x1_0000 + b[2] as int * 0x100 + b[3] as int
  }

  lemma NumbersRoundTrip(x: U16, y: U32)
    ensures Un16(Be16(x)) == x && Un32(Be32(y)) == y
  {
    RoundTrip16(x);
    RoundTrip32(y);
    hide Be16, Un16, Be32, Un32;
  }

  lemma RoundTrip16(x: U16)
    ensures Un16(Be16(x)) == x
  {
  }

  lemma RoundTrip32(y: U32)
    ensures Un32(Be32(y)) == y
  {
    var hi, lo := y / 0x1_0000, y % 0x1_0000;
    Quarters(y, hi, lo);
    assert hi / 0x100 * 0x100 + hi % 0x100 == hi && lo / 0x100 * 0x100 + lo % 0x100 == lo;
  }

  lemma Quarters(y: U32, hi: int, lo: int)
    requires hi == y / 0x1_0000 && lo == y % 0x1_0000
    ensures y == hi * 0x1_0000 + lo && y / 0x100_0000 == hi / 0x100 && y / 0x100 % 0x100 == lo / 0x100 && y % 0x100 == lo % 0x100
  {
    assert y / 0x100 == hi * 0x100 + lo / 0x100;
  }

  // ---------- Payload ----------

  function EncodeSub(s: SubPacket): (b: seq<Byte>)
    ensures |b| == 6 + |s.data|
  {
    Be32(s.userID) + Be16(|s.data| % 0x1_0000) + s.data
  }

  function Encode(subs: seq<SubPacket>): seq<Byte> {
    if subs == [] then [] else Encode(subs[..|subs| - 1]) + EncodeSub(subs[|subs| - 1])
  }

  function Zeros(n: nat): seq<Byte> {
    seq(n, _ => 0)
  }

  /** What the reading loop makes of a payload: a short last sub-packet is filled with
      zeros, and one whose data would start at the end is dropped. */
  function Decode(s: seq<Byte>): seq<SubPacket> {
    if |s| < 6 then []
    else
      var subLen, rest := Un16(s[4..6]), s[6..];
      if rest == [] then []
      else if |rest| < subLen then [SubPacket(Un32(s[..4]), rest + Zeros(subLen - |rest|))]
      else [SubPacket(Un32(s[..4]), rest[..subLen])] + Decode(rest[subLen..])
  }

  lemma EncodeSnoc(subs: seq<SubPacket>, s: SubPacket)
    ensures Encode(subs + [s]) == Encode(subs) + EncodeSub(s)
  {
    assert (subs + [s])[..|subs|] == subs;
  }

  lemma {:induction false} EncodeCons(subs: seq<SubPacket>)
    requires subs != []
    ensures Encode(subs) == EncodeSub(subs[0]) + Encode(subs[1..])
  {
    var n := |subs| - 1;
    if n > 0 {
      EncodeCons(subs[..n]);
      assert subs[..n][1..] == subs[1..][..n - 1];
      assert subs[1..][|subs[1..]| - 1] == subs[n];
    } else {
      assert subs[..0] == [];
    }
  }

  /** How a sub-packet reads at the head of a payload. */
  lemma ReadFirst(s: SubPacket, tail: seq<Byte>)
    ensures var b := EncodeSub(s) + tail;
            Un32(b[..4]) == s.userID && Un16(b[4..6]) == |s.data| % 0x1_0000 && b[6..] == s.data + tail
  {
    var b := EncodeSub(s) + tail;
    NumbersRoundTrip(|s.data| % 0x1_0000, s.userID);
    assert b[..4] == Be32(s.userID) && b[4..6] == Be16(|s.data| % 0x1_0000);
  }

  /** What is left of a list of sub-packets once written and read. */
  function Survivors(subs: seq<SubPacket>): seq<SubPacket> {
    if subs != [] && subs[|subs| - 1].data == [] then subs[..|subs| - 1] else subs
  }

  /** With at least 65536 bytes cut off, a payload never reads back as it was. */
  lemma {:induction false} CutPayloadDiffers(subs: seq<SubPacket>, cut: nat)
    requires cut + 0x1_0000 <= |Encode(subs)|
    ensures Decode(Encode(subs)[..cut]) != subs
    decreases |subs|
  {
    hide Decode, Encode, EncodeSub;
    EmptyEncodes();
    var s, rest := subs[0], subs[1..];
    EncodeCons(subs);
    var b := Encode(subs)[..cut];
    var L := |s.data|;
    if cut <= 6 {
      DecodeShort(b);
    } else {
      CutFirst(s, Encode(rest), cut);
      if L <= 0xFFFF && L <= cut - 6 {
        CutPayloadDiffers(rest, cut - 6 - L);
        assert subs == [s] + rest;
      } else if L <= 0xFFFF {
        assert rest != [];
      }
    }
  }

  lemma EmptyEncodes()
    ensures Encode([]) == []
  {
  }

  /** The head of a payload cut within or after its first sub-packet's data. */
  lemma CutFirst(s: SubPacket, tail: seq<Byte>, cut: nat)
    requires 6 < cut <= 6 + |s.data| + |tail|
    ensures var b := (EncodeSub(s) + tail)[..cut];
            && Decode(b) != []
            && (|s.data| > 0xFFFF ==> |Decode(b)[0].data| <= 0xFFFF)
            && (|s.data| <= 0xFFFF && |s.data| <= cut - 6 ==> Decode(b) == [s] + Decode(tail[..cut - 6 - |s.data|]))
            && (|s.data| <= 0xFFFF && |s.data| > cut - 6 ==> |Decode(b)| == 1)
  {
    hide EncodeSub, Un16, Un32;
    var all := EncodeSub(s) + tail;
    var b := all[..cut];
    ReadFirst(s, tail);
    assert b[..4] == all[..4] && b[4..6] == all[4..6];
    assert b[6..] == (s.data + tail)[..cut - 6];
    if |s.data| <= 0xFFFF && |s.data| <= cut - 6 {
      assert b[6..][..|s.data|] == s.data;
      assert b[6..][|s.data|..] == tail[..cut - 6 - |s.data|];
    }
  }

  /** A payload that fits the length field is read back, but for an empty last sub-packet. */
  lemma {:induction false} DecodeEncode(subs: seq<SubPacket>)
    requires |Encode(subs)| <= 0xFFFF
    ensures Decode(Encode(subs)) == Survivors(subs)
  {
    hide Decode, EncodeSub;
    if subs == [] {
      DecodeShort([]);
    } else {
      var s, rest := subs[0], subs[1..];
      var b := Encode(subs);
      EncodeCons(subs);
      DecodeEncode(rest);
      assert b[..|b|] == b;
      if rest == [] && s.data == [] {
        DecodeShort(b);
      } else {
        if rest != [] {
          EncodeCons(rest);
        }
        CutFirst(s, Encode(rest), |b|);
        assert Encode(rest)[..|Encode(rest)|] == Encode(rest);
        assert Survivors(subs) == [s] + Survivors(rest);
      }
    }
  }

  lemma DecodeShort(b: seq<Byte>)
    requires |b| <= 6
    ensures Decode(b) == []
  {
  }

  // ---------- Header ----------

  ghost predicate WellFormed(h: Header) {
    |h.hopIP| == MAX_HOPS
  }

  /** The 22 header bytes in use; two more are padding. */
  function HeadBytes(h: Header): (b: seq<Byte>)
    requires |h.hopIP| == MAX_HOPS
    ensures |b| == 22
  {
    [h.hopPos] + Be32(h.hopIP[0]) + Be32(h.hopIP[1]) + Be32(h.hopIP[2]) + Be32(h.hopIP[3])
    + Be16(h.payloadLen) + Be16(h.port) + [h.protocol]
  }

  lemma HeadLayout(h: Header)
    requires |h.hopIP| == MAX_HOPS
    ensures HeadBytes(h) == [h.hopPos] + Be32(h.hopIP[0]) + Be32(h.hopIP[1]) + Be32(h.hopIP[2]) + Be32(h.hopIP[3])
                            + Be16(h.payloadLen) + Be16(h.port) + [h.protocol]
  {
  }

  function HeadOf(raw: seq<Byte>): (h: Header)
    requires |raw| >= HEADER_SIZE
    ensures WellFormed(h)
  {
    Header(raw[0], [Un32(raw[1..5]), Un32(raw[5..9]), Un32(raw[9..13]), Un32(raw[13..17])],
           Un16(raw[17..19]), Un16(raw[19..21]), raw[21])
  }

  lemma HeadRoundTrip(h: Header, raw: seq<Byte>)
    requires WellFormed(h) && |raw| >= HEADER_SIZE && raw[..22] == HeadBytes(h)
    ensures HeadOf(raw) == h
  {
    hide Be16, Be32, Un16, Un32;
    var b := raw[..22];
    assert raw[1..5] == b[1..5] == Be32(h.hopIP[0]);
    assert raw[5..9] == b[5..9] == Be32(h.hopIP[1]);
    assert raw[9..13] == b[9..13] == Be32(h.hopIP[2]);
    assert raw[13..17] == b[13..17] == Be32(h.hopIP[3]);
    assert raw[17..19] == b[17..19] == Be16(h.payloadLen);
    assert raw[19..21] == b[19..21] == Be16(h.port);
    assert raw[0] == b[0] && raw[21] == b[21];
    NumbersRoundTrip(h.payloadLen, h.hopIP[0]);
    NumbersRoundTrip(h.port, h.hopIP[1]);
    NumbersRoundTrip(h.port, h.hopIP[2]);
    NumbersRoundTrip(h.port, h.hopIP[3]);
  }

  /** What parsing a packet yields. */
  function Parsed(raw: seq<Byte>, bufferSize: nat): Option<(Header, seq<SubPacket>)> {
    if |raw| < HEADER_SIZE then None
    else
      var h := HeadOf(raw);
      var payloadEnd := HEADER_SIZE + h.payloadLen;
      if payloadEnd > |raw| || payloadEnd > bufferSize then None
      else Some((h, Decode(raw[HEADER_SIZE..payloadEnd])))
  }

  /** The hop slots for a route: its first four hops, zeros after a shorter one. */
  function Padded(hops: seq<U32>): (r: seq<U32>)
    ensures |r| == MAX_HOPS && forall i :: 0 <= i < MAX_HOPS ==> r[i] == if i < |hops| then hops[i] else 0
  {
    seq(MAX_HOPS, i requires 0 <= i < MAX_HOPS => if i < |hops| then hops[i] else 0)
  }

  // ---------- Round trip ----------

  function LengthField(subs: seq<SubPacket>): U16 {
    |Encode(subs)| % 0x1_0000
  }

  /** The bytes sent for these sub-packets: the payload is cut at what its length field says. */
  ghost predicate Wire(h: Header, subs: seq<SubPacket>, bytes: seq<Byte>) {
    && WellFormed(h) && h.payloadLen == LengthField(subs)
    && |bytes| == HEADER_SIZE + h.payloadLen
    && bytes[..22] == HeadBytes(h)
    && bytes[HEADER_SIZE..] == Encode(subs)[..h.payloadLen]
  }

  /** The bytes on the wire, in network order: position 1 and the hops 10.0.0.1, 10.0.0.2 and
      192.168.1.9 in four slots, a payload of 8 bytes, port 443, TCP, two bytes of padding, then
      request 0x01020304 with 2 bytes of data. */
  lemma WireExample(bytes: seq<Byte>)
    requires Wire(Header(1, [0x0A00_0001, 0x0A00_0002, 0xC0A8_0109, 0], 8, 443, 6), [SubPacket(0x0102_0304, [7, 9])], bytes)
    ensures bytes[..22] == [1, 10, 0, 0, 1, 10, 0, 0, 2, 192, 168, 1, 9, 0, 0, 0, 0, 0, 8, 1, 187, 6]
    ensures bytes[24..] == [1, 2, 3, 4, 0, 2, 7, 9]
  {
    hide Be16, Be32, Encode;
    NetworkOrder(10, 0, 0, 1);
    NetworkOrder(10, 0, 0, 2);
    NetworkOrder(192, 168, 1, 9);
    NetworkOrder(0, 0, 0, 0);
    NetworkOrder(0, 8, 0, 0);
    NetworkOrder(1, 187, 0, 0);
    NetworkOrder(1, 2, 3, 4);
    NetworkOrder(0, 2, 0, 0);
    var sub := SubPacket(0x0102_0304, [7, 9]);
    OneSub(sub);
    assert EncodeSub(sub) == [1, 2, 3, 4, 0, 2, 7, 9];
  }

  lemma OneSub(s: SubPacket)
    ensures Encode([s]) == EncodeSub(s)
  {
    EncodeSnoc([], s);
    assert [] + [s] == [s];
  }

  /** Numbers are written highest byte first. */
  lemma NetworkOrder(a: Byte, b: Byte, c: Byte, d: Byte)
    ensures Be16(a * 0x100 + b) == [a, b]
    ensures Be32(a * 0x100_0000 + b * 0x1_0000 + c * 0x100 + d) == [a, b, c, d]
  {
    var hi, lo := a * 0x100 + b, c * 0x100 + d;
    Quarters(hi * 0x1_0000 + lo, hi, lo);
    assert (hi * 0x1_0000 + lo) / 0x1_0000 % 0x100 == hi % 0x100 == b;
  }

  /** What was packed is parsed back exactly when the payload fits its 16-bit length and the
      last sub-packet is not empty; the header always is. */
  lemma RoundTripIff(h: Header, subs: seq<SubPacket>, bytes: seq<Byte>)
    requires Wire(h, subs, bytes)
    ensures Parsed(bytes, |bytes|).Some? && Parsed(bytes, |bytes|).value.0 == h
    ensures Parsed(bytes, |bytes|).value.1 == subs <==>
            |Encode(subs)| <= 0xFFFF && (subs == [] || subs[|subs| - 1].data != [])
    ensures |Encode(subs)| <= 0xFFFF ==> Parsed(bytes, |bytes|).value.1 == Survivors(subs)
  {
    hide HeadOf, HeadBytes, Decode;
    HeadRoundTrip(h, bytes);
    var end := HEADER_SIZE + h.payloadLen;
    assert bytes[HEADER_SIZE..end] == bytes[HEADER_SIZE..];
    if |Encode(subs)| <= 0xFFFF {
      assert Encode(subs)[..h.payloadLen] == Encode(subs);
      DecodeEncode(subs);
    } else {
      CutPayloadDiffers(subs, h.payloadLen);
    }
  }

  lemma SubLayout(userID: U32, data: seq<Byte>)
    ensures EncodeSub(SubPacket(userID, data)) == Be32(userID) + Be16(|data| % 0x1_0000) + data
  {
  }

  lemma Written(b: seq<Byte>, x: seq<Byte>, y: seq<Byte>, z: seq<Byte>)
    ensures ((b + x) + y) + z == b + (x + y + z)
  {
  }

  lemma Appended(b: seq<Byte>, b': seq<Byte>, wp: nat, sub: seq<Byte>)
    requires HEADER_SIZE <= wp && wp + |sub| <= |b| == |b'| && b'[..wp + |sub|] == b[..wp] + sub
    ensures b'[HEADER_SIZE..wp + |sub|] == b[HEADER_SIZE..wp] + sub && b'[22] == b[22] && b'[23] == b[23]
  {
    assert b'[..wp + |sub|][22] == b[..wp][22] && b'[..wp + |sub|][23] == b[..wp][23];
    assert b'[HEADER_SIZE..wp + |sub|] == b'[..wp + |sub|][HEADER_SIZE..];
  }

  lemma Slices(b: seq<Byte>, wp: nat, n: nat)
    requires HEADER_SIZE + n <= wp <= |b|
    ensures b[..HEADER_SIZE + n][..22] == b[..22] && b[..HEADER_SIZE + n][HEADER_SIZE..] == b[HEADER_SIZE..wp][..n]
  {
  }

  lemma SameTail(a: seq<Byte>, b: seq<Byte>, n: nat)
    requires |a| == |b| && HEADER_SIZE <= n <= |a| && a[22..] == b[22..]
    ensures a[22] == b[22] && a[23] == b[23] && a[HEADER_SIZE..n] == b[HEADER_SIZE..n]
  {
    assert a[22..][0] == a[22] && a[22..][1] == a[23] && b[22..][0] == b[22] && b[22..][1] == b[23];
    forall i | HEADER_SIZE <= i < n
      ensures a[i] == b[i]
    {
      assert a[22..][i - 22] == a[i] && b[22..][i - 22] == b[i];
    }
  }

  // ---------- The packet under construction ----------

  /** A packet under construction as a value: its header fields and the payload written. */
  datatype Frame = Frame(head: Header, payload: seq<Byte>)

  predicate Room(f: Frame, buffSize: nat, data: seq<Byte>) {
    HEADER_SIZE + |f.payload| + 6 + |data| <= buffSize
  }

  /** With one more sub-packet; the length field follows, modulo its width. */
  function Grown(f: Frame, sub: SubPacket): Frame {
    var payload := f.payload + EncodeSub(sub);
    Frame(f.head.(payloadLen := |payload| % 0x1_0000), payload)
  }

  /** After a reset the payload is gone, but the length field stays as it was. */
  function Cleared(f: Frame): Frame {
    f.(payload := [])
  }

  /** The length field does not say more than was written. */
  predicate Sendable(f: Frame) {
    |f.head.hopIP| == MAX_HOPS && f.head.payloadLen <= |f.payload|
  }

  /** The bytes to send: header, padding, and as much payload as the length field says. */
  function FrameBytes(f: Frame): seq<Byte> {
    if Sendable(f) then HeadBytes(f.head) + [0, 0] + f.payload[..f.head.payloadLen] else []
  }

  /** A frame whose length field agrees with its payload is the wire form of what it holds. */
  lemma FrameIsWire(f: Frame, subs: seq<SubPacket>)
    requires WellFormed(f.head) && f.payload == Encode(subs) && f.head.payloadLen == LengthField(subs)
    ensures Sendable(f) && Wire(f.head, subs, FrameBytes(f))
  {
    hide HeadBytes, Encode;
    var b := FrameBytes(f);
    assert b[..22] == HeadBytes(f.head);
    assert b[HEADER_SIZE..] == f.payload[..f.head.payloadLen];
  }

  class Packet {
    const buf: array<Byte>
    const buffSize: nat
    var hopPos: Byte
    var hopIP: seq<U32>
    var payloadLen: U16
    var port: U16
    var protocol: Byte
    var wp: nat

    ghost predicate Valid()
      reads this, buf
    {
      && buf.Length == buffSize && HEADER_SIZE <= wp && (wp <= buffSize || wp == HEADER_SIZE) && |hopIP| == MAX_HOPS
      && (buffSize >= HEADER_SIZE ==> buf[22] == buf[23] == 0)
    }

    constructor (buffSize: nat)
      ensures Valid() && this.buffSize == buffSize && fresh(buf) && wp == HEADER_SIZE
      ensures hopPos == 0 && hopIP == [0, 0, 0, 0] && payloadLen == 0 && port == 0 && protocol == 0
      ensures forall i :: 0 <= i < buffSize ==> buf[i] == 0
    {
      buf := new Byte[buffSize](_ => 0);
      this.buffSize, wp, hopPos, hopIP, payloadLen, port, protocol := buffSize, HEADER_SIZE, 0, [0, 0, 0, 0], 0, 0, 0;
    }

    /** The bytes written since the last reset. */
    ghost function Payload(): seq<Byte>
      requires Valid()
      reads this, buf
    {
      if wp <= buf.Length then buf[HEADER_SIZE..wp] else []
    }

    function Head(): Header
      reads this
    {
      Header(hopPos, hopIP, payloadLen, port, protocol)
    }

    /** The packet as a value. */
    ghost function View(): Frame
      requires Valid()
      reads this, buf
    {
      Frame(Head(), Payload())
    }

    method SetHopIP(hopIdx: int, ip: Option<U32>)
      requires Valid()
      modifies this`hopIP
      ensures Valid()
      ensures hopIP == if 0 <= hopIdx < MAX_HOPS && ip.Some? then old(hopIP)[hopIdx := ip.value] else old(hopIP)
    {
      if hopIdx < 0 || hopIdx >= MAX_HOPS {
        return;
      }
      if ip.None? {
        return;
      }
      hopIP := hopIP[hopIdx := ip.value];
    }

    /** A new packet is addressed: hops in their slots, port, protocol, and position 1. */
    method Address(hops: seq<U32>, port: U16, tcp: bool)
      requires Valid() && hopIP == [0, 0, 0, 0]
      modifies this`hopIP, this`port, this`protocol, this`hopPos
      ensures Valid() && Head() == Header(1, Padded(hops), payloadLen, port, if tcp then 6 else 17)
    {
      for i := 0 to |hops|
        invariant Valid() && hopIP == Padded(hops[..i])
      {
        SetHopIP(i, Some(hops[i]));
      }
      assert hops[..|hops|] == hops;
      this.port := port;
      protocol := if tcp then 6 else 17;
      hopPos := 1;
    }

    /** Adds a sub-packet if it fits the buffer. */
    method AppendUserPacket(userID: U32, data: seq<Byte>) returns (ok: bool)
      requires Valid()
      modifies this`wp, this`payloadLen, buf
      ensures Valid() && (ok <==> Room(old(View()), buffSize, data))
      ensures ok ==> View() == Grown(old(View()), SubPacket(userID, data))
      ensures !ok ==> View() == old(View()) && buf[..] == old(buf[..])
    {
      var subSize := 4 + 2 + |data|;
      if wp + subSize > buffSize {
        return false;
      }
      hide EncodeSub;
      ghost var before, at := buf[..], wp;
      PutSub(userID, data);
      payloadLen := (wp - HEADER_SIZE) % 0x1_0000;
      Appended(before, buf[..], at, EncodeSub(SubPacket(userID, data)));
      return true;
    }

    /** Writes a sub-packet at the write position. */
    method PutSub(userID: U32, data: seq<Byte>)
      requires wp + 6 + |data| <= buf.Length
      modifies this`wp, buf
      ensures wp == old(wp) + 6 + |data| && buf[..wp] == old(buf[..wp]) + EncodeSub(SubPacket(userID, data))
    {
      hide Be16, Be32, EncodeSub;
      ghost var before := buf[..wp];
      Put(wp, Be32(userID));
      wp := wp + 4;
      Put(wp, Be16(|data| % 0x1_0000));
      wp := wp + 2;
      Put(wp, data);
      wp := wp + |data|;
      SubLayout(userID, data);
      Written(before, Be32(userID), Be16(|data| % 0x1_0000), data);
    }

    /** Copies bytes into the buffer. */
    method Put(at: nat, bytes: seq<Byte>)
      requires at + |bytes| <= buf.Length
      modifies buf
      ensures buf[..at + |bytes|] == old(buf[..at]) + bytes
      ensures forall i :: at + |bytes| <= i < buf.Length ==> buf[i] == old(buf[i])
    {
      forall i | 0 <= i < |bytes| {
        buf[at + i] := bytes[i];
      }
    }

    /** Writes the header in front of the payload. */
    method SerializeHead()
      requires Valid() && buffSize >= HEADER_SIZE
      modifies buf
      ensures Valid() && buf[..22] == HeadBytes(Head()) && buf[22..] == old(buf[22..])
      ensures Payload() == old(Payload())
    {
      hide Be16, Be32, HeadBytes;
      ghost var tail, before := buf[22..], buf[..];
      Put(0, [hopPos]);
      PutAfter(1, Be32(hopIP[0]), [hopPos], tail);
      PutAfter(5, Be32(hopIP[1]), [hopPos] + Be32(hopIP[0]), tail);
      PutAfter(9, Be32(hopIP[2]), [hopPos] + Be32(hopIP[0]) + Be32(hopIP[1]), tail);
      PutAfter(13, Be32(hopIP[3]), [hopPos] + Be32(hopIP[0]) + Be32(hopIP[1]) + Be32(hopIP[2]), tail);
      ghost var hops := [hopPos] + Be32(hopIP[0]) + Be32(hopIP[1]) + Be32(hopIP[2]) + Be32(hopIP[3]);
      PutAfter(17, Be16(payloadLen), hops, tail);
      PutAfter(19, Be16(port), hops + Be16(payloadLen), tail);
      PutAfter(21, [protocol], hops + Be16(payloadLen) + Be16(port), tail);
      HeadLayout(Head());
      SameTail(before, buf[..], if wp <= buf.Length then wp else HEADER_SIZE);
    }

    /** Copies header bytes behind those already written. */
    method PutAfter(at: nat, bytes: seq<Byte>, ghost before: seq<Byte>, ghost tail: seq<Byte>)
      requires at + |bytes| <= 22 <= buf.Length && buf[..at] == before && buf[22..] == tail
      modifies buf
      ensures buf[..at + |bytes|] == before + bytes && buf[22..] == tail
    {
      Put(at, bytes);
    }

    function TotalBytes(): nat
      reads this
    {
      HEADER_SIZE + payloadLen
    }

    /** The write position goes back to the start; the length field keeps its value. */
    method Reset()
      requires Valid()
      modifies this`wp
      ensures Valid() && View() == Cleared(old(View()))
    {
      wp := HEADER_SIZE;
    }

    /** Serialise and cut the bytes to send. */
    method Emit() returns (bytes: seq<Byte>)
      requires Valid() && HEADER_SIZE + payloadLen <= buffSize
      modifies buf
      ensures Valid() && View() == old(View()) && buf[22..] == old(buf[22..])
      ensures bytes == buf[..TotalBytes()] && bytes[..22] == HeadBytes(Head())
      ensures Sendable(View()) ==> bytes == FrameBytes(View())
    {
      hide HeadBytes;
      SerializeHead();
      bytes := buf[..TotalBytes()];
      if Sendable(View()) {
        Slices(buf[..], wp, payloadLen);
        Assembled(bytes, HeadBytes(Head()), Payload()[..payloadLen]);
      }
    }
  }

  lemma Assembled(bytes: seq<Byte>, head: seq<Byte>, payload: seq<Byte>)
    requires |head| == 22 && |bytes| == HEADER_SIZE + |payload|
    requires bytes[..22] == head && bytes[22] == bytes[23] == 0 && bytes[HEADER_SIZE..] == payload
    ensures bytes == head + [0, 0] + payload
  {
    assert bytes == bytes[..22] + [bytes[22], bytes[23]] + bytes[HEADER_SIZE..];
  }

  // ---------- A packet used again and again ----------

  /** Of these sub-packets, appended in turn, the ones that find room. */
  function Fitting(buffSize: nat, subs: seq<SubPacket>): seq<SubPacket> {
    if subs == [] then []
    else
      var kept, last := Fitting(buffSize, subs[..|subs| - 1]), subs[|subs| - 1];
      if HEADER_SIZE + |Encode(kept)| + 6 + |last.data| <= buffSize then kept + [last] else kept
  }

  lemma {:induction false} FittingFits(buffSize: nat, subs: seq<SubPacket>)
    ensures Fitting(buffSize, subs) != [] ==> HEADER_SIZE + |Encode(Fitting(buffSize, subs))| <= buffSize
  {
    if subs != [] {
      var kept := Fitting(buffSize, subs[..|subs| - 1]);
      FittingFits(buffSize, subs[..|subs| - 1]);
      EncodeSnoc(kept, subs[|subs| - 1]);
    }
  }

  /** The header of a packet that holds these sub-packets. */
  function Labelled(h: Header, subs: seq<SubPacket>): Header {
    h.(payloadLen := LengthField(subs))
  }

  /** Appends what fits of one round. */
  method AppendAll(p: Packet, subs: seq<SubPacket>)
    requires p.Valid() && p.Payload() == []
    modifies p`wp, p`payloadLen, p.buf
    ensures p.Valid() && p.Payload() == Encode(Fitting(p.buffSize, subs))
    ensures Fitting(p.buffSize, subs) != [] ==> p.Head() == Labelled(old(p.Head()), Fitting(p.buffSize, subs))
    ensures Fitting(p.buffSize, subs) == [] ==> p.Head() == old(p.Head()) && p.buf[..] == old(p.buf[..])
  {
    hide Encode, EncodeSub;
    EmptyEncodes();
    for i := 0 to |subs|
      invariant p.Valid() && p.Payload() == Encode(Fitting(p.buffSize, subs[..i]))
      invariant Fitting(p.buffSize, subs[..i]) != [] ==> p.Head() == Labelled(old(p.Head()), Fitting(p.buffSize, subs[..i]))
      invariant Fitting(p.buffSize, subs[..i]) == [] ==> p.Head() == old(p.Head()) && p.buf[..] == old(p.buf[..])
    {
      assert subs[..i + 1][..i] == subs[..i];
      EncodeSnoc(Fitting(p.buffSize, subs[..i]), subs[i]);
      var ok := p.AppendUserPacket(subs[i].userID, subs[i].data);
    }
    assert subs[..|subs|] == subs;
  }

  /** What round i must send: its own sub-packets, as far as they fit; a round with none sends
      what was sent before once more, because the reset leaves the length field stale. */
  ghost predicate RoundHolds(h: Header, buffSize: nat, rounds: seq<seq<SubPacket>>, sent: seq<seq<Byte>>, i: nat)
    requires i < |rounds| && i < |sent|
  {
    var kept := Fitting(buffSize, rounds[i]);
    if kept != [] then Wire(Labelled(h, kept), kept, sent[i])
    else if i > 0 then sent[i] == sent[i - 1]
    else sent[i] == FrameBytes(Frame(h, []))
  }

  /** One round; what is not rewritten of the last one stays in the buffer. */
  method Round(p: Packet, subs: seq<SubPacket>) returns (bytes: seq<Byte>)
    requires p.Valid() && HEADER_SIZE + p.payloadLen <= p.buffSize && p.Payload() == []
    modifies p`wp, p`payloadLen, p.buf
    ensures p.Valid() && HEADER_SIZE + p.payloadLen <= p.buffSize && p.Payload() == []
    ensures bytes == p.buf[..p.TotalBytes()] && bytes[..22] == HeadBytes(p.Head())
    ensures var kept := Fitting(p.buffSize, subs);
            && p.Head() == (if kept == [] then old(p.Head()) else Labelled(old(p.Head()), kept))
            && (kept != [] ==> Wire(p.Head(), kept, bytes))
            && (kept == [] ==> p.buf[22..] == old(p.buf[22..]) && (p.payloadLen == 0 ==> bytes == FrameBytes(Frame(p.Head(), []))))
  {
    hide Encode, Wire, HeadBytes, Fitting;
    ghost var kept, before := Fitting(p.buffSize, subs), p.buf[..];
    EmptyEncodes();
    AppendAll(p, subs);
    FittingFits(p.buffSize, subs);
    LengthFits(kept);
    assert before[22..] == old(p.buf[22..]) && p.buf[22..] == p.buf[..][22..];
    bytes := p.Emit();
    if kept != [] {
      FrameIsWire(p.View(), kept);
    }
    p.Reset();
  }

  /** One packet, used for any number of rounds of appending, sending and resetting. */
  method Rounds(p: Packet, rounds: seq<seq<SubPacket>>) returns (sent: seq<seq<Byte>>)
    requires p.Valid() && p.buffSize >= HEADER_SIZE && p.payloadLen == 0 && p.Payload() == []
    modifies p`wp, p`payloadLen, p.buf
    ensures |sent| == |rounds| && forall i :: 0 <= i < |rounds| ==> RoundHolds(old(p.Head()), p.buffSize, rounds, sent, i)
  {
    hide Wire, HeadBytes, Fitting, FrameBytes;
    sent := [];
    ghost var h := p.Head();
    for i := 0 to |rounds|
      invariant p.Valid() && p.Payload() == [] && HEADER_SIZE + p.payloadLen <= p.buffSize && p.Head() == h.(payloadLen := p.payloadLen)
      invariant |sent| == i && forall j :: 0 <= j < i ==> RoundHolds(h, p.buffSize, rounds, sent, j)
      invariant if i == 0 then p.payloadLen == 0 else sent[i - 1] == p.buf[..p.TotalBytes()] && sent[i - 1][..22] == HeadBytes(p.Head())
    {
      ghost var before, earlier := p.buf[..], sent;
      var bytes := Round(p, rounds[i]);
      if i > 0 && Fitting(p.buffSize, rounds[i]) == [] {
        assert before[22..] == p.buf[..][22..];
        SameBytes(before, p.buf[..], p.TotalBytes());
      }
      sent := sent + [bytes];
      forall j | 0 <= j < i
        ensures RoundHolds(h, p.buffSize, rounds, sent, j)
      {
        assert RoundHolds(h, p.buffSize, rounds, earlier, j);
      }
    }
  }

  lemma LengthFits(subs: seq<SubPacket>)
    ensures LengthField(subs) <= |Encode(subs)|
  {
  }

  lemma SameBytes(a: seq<Byte>, b: seq<Byte>, n: nat)
    requires 22 <= n <= |a| && |a| == |b| && a[..n][..22] == b[..n][..22] && a[22..] == b[22..]
    ensures a[..n] == b[..n]
  {
    assert a[..22] == a[..n][..22] && b[..22] == b[..n][..22];
    assert a == a[..22] + a[22..] && b == b[..22] + b[22..];
  }

  /** Every round is read back, if the length field can hold a full buffer: an empty last
      message is lost, everything else arrives. */
  lemma RoundIsRead(h: Header, buffSize: nat, rounds: seq<seq<SubPacket>>, sent: seq<seq<Byte>>, i: nat)
    requires i < |rounds| && i < |sent| && RoundHolds(h, buffSize, rounds, sent, i)
    requires buffSize <= HEADER_SIZE + 0xFFFF && Fitting(buffSize, rounds[i]) != []
    ensures var kept := Fitting(buffSize, rounds[i]); Parsed(sent[i], |sent[i]|) == Some((Labelled(h, kept), Survivors(kept)))
  {
    hide Encode, Wire, Fitting, Parsed;
    FittingFits(buffSize, rounds[i]);
    var kept := Fitting(buffSize, rounds[i]);
    RoundTripIff(Labelled(h, kept), kept, sent[i]);
  }

  // ---------- Parsing ----------

  method ParseHeader(raw: seq<Byte>) returns (r: Option<Header>)
    ensures r == if |raw| < HEADER_SIZE then None else Some(HeadOf(raw))
  {
    if |raw| < HEADER_SIZE {
      return None;
    }
    return Some(HeadOf(raw));
  }

  /** `Parse`; a buffer too small for the header would be a slice out of range. */
  method Parse(raw: seq<Byte>, bufferSize: nat) returns (r: Option<(Header, seq<SubPacket>)>)
    requires |raw| < HEADER_SIZE || bufferSize >= HEADER_SIZE
    ensures r == Parsed(raw, bufferSize)
  {
    if |raw| < HEADER_SIZE {
      return None;
    }
    var p := new Packet(bufferSize);
    forall i | 0 <= i < |raw| && i < bufferSize {
      p.buf[i] := raw[i];
    }
    assert p.buf[..HEADER_SIZE] == raw[..HEADER_SIZE];
    HeadPrefix(p.buf[..], raw);
    var h := HeadOf(p.buf[..]);
    var payloadEnd := HEADER_SIZE + h.payloadLen;
    if payloadEnd > |raw| || payloadEnd > bufferSize {
      return None;
    }
    var payload := p.buf[HEADER_SIZE..payloadEnd];
    assert payload == raw[HEADER_SIZE..payloadEnd];
    var subs := ReadSubs(payload);
    return Some((h, subs));
  }

  lemma HeadPrefix(a: seq<Byte>, b: seq<Byte>)
    requires |a| >= HEADER_SIZE && |b| >= HEADER_SIZE && a[..HEADER_SIZE] == b[..HEADER_SIZE]
    ensures HeadOf(a) == HeadOf(b)
  {
    hide Un16, Un32;
    var c := a[..HEADER_SIZE];
    assert forall i :: 0 <= i < HEADER_SIZE ==> a[i] == c[i] == b[i];
    assert a[1..5] == b[1..5] && a[5..9] == b[5..9] && a[9..13] == b[9..13] && a[13..17] == b[13..17];
    assert a[17..19] == b[17..19] && a[19..21] == b[19..21];
  }

  /** The reading loop of `Parse`. */
  method ReadSubs(payload: seq<Byte>) returns (subs: seq<SubPacket>)
    ensures subs == Decode(payload)
  {
    subs := [];
    var r := payload;
    while true
      invariant subs + Decode(r) == Decode(payload)
      decreases |r|
    {
      ghost var before := r;
      if |r| < 4 {
        break;
      }
      var userID := Un32(r[..4]);
      r := r[4..];
      if |r| < 2 {
        break;
      }
      var subLen := Un16(r[..2]);
      r := r[2..];
      assert r == before[6..] && before[4..][..2] == before[4..6];
      if |r| == 0 {
        break;
      }
      var n := if subLen <= |r| then subLen else |r|;
      var data := r[..n] + Zeros(subLen - n);
      r := r[n..];
      DecodeStep(before, SubPacket(userID, data), r);
      subs := subs + [SubPacket(userID, data)];
    }
  }

  lemma DecodeStep(s: seq<Byte>, sub: SubPacket, rest: seq<Byte>)
    requires |s| > 6
    requires var subLen, tail := Un16(s[4..6]), s[6..];
             var n := if subLen <= |tail| then subLen else |tail|;
             sub == SubPacket(Un32(s[..4]), tail[..n] + Zeros(subLen - n)) && rest == tail[n..]
    ensures Decode(s) == [sub] + Decode(rest)
  {
    hide Un16, Un32;
    var subLen, tail := Un16(s[4..6]), s[6..];
    if subLen <= |tail| {
      assert tail[..subLen] + Zeros(0) == tail[..subLen];
    } else {
      assert tail[..|tail|] == tail && Decode(rest) == [];
    }
  }

  /** `AdvanceRawHop`, in place. */
  method AdvanceRawHop(pkt: array<Byte>)
    modifies pkt
    ensures pkt[..] == Advanced(old(pkt[..]))
  {
    if pkt.Length >= HEADER_SIZE && pkt[0] < MAX_HOPS - 1 {
      pkt[0] := pkt[0] + 1;
    }
  }

  function Advanced(raw: seq<Byte>): seq<Byte> {
    if |raw| >= HEADER_SIZE && raw[0] < MAX_HOPS - 1 then raw[0 := raw[0] + 1] else raw
  }
}
