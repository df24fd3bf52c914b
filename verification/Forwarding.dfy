/** Hop-by-hop forwarding: what a proxy does with a tunnel packet it receives, and the way
    a request takes to its origin and its response takes back. */
module Forwarding {
  import opened Optional
  import opened TunnelPacket

  type IP = U32

  datatype Task = Task(hopIP: seq<IP>, port: U16, userID: U32, origin: IP, data: seq<Byte>)

  /** What handling a packet comes to.  `Panic` is an index out of range. */
  datatype Outcome =
    | Drop
    | Panic
    | Forward(next: IP, pkt: seq<Byte>)
    | ToOrigin(udp: bool, tasks: seq<Task>)
    | Deliver(subs: seq<SubPacket>)

  const UDP: Byte := 17

  // ---------- One proxy ----------

  /** Sending on to the next hop.  The index is a byte, so it wraps after 255. */
  function SendOn(h: Header, pkt: seq<Byte>): Outcome {
    var i := (h.hopPos + 1) % 0x100;
    if i < |h.hopIP| then Forward(h.hopIP[i], Advanced(pkt)) else Panic
  }

  predicate LastRequestHop(h: Header)
    requires |h.hopIP| == MAX_HOPS
  {
    h.hopPos == 2 || (h.hopPos + 2 < MAX_HOPS && h.hopIP[h.hopPos + 2] == 0)
  }

  predicate LastResponseHop(h: Header)
    requires |h.hopIP| == MAX_HOPS
  {
    h.hopPos == 3 || (h.hopPos + 1 < MAX_HOPS && h.hopIP[h.hopPos + 1] == 0)
  }

  function TasksOf(h: Header, origin: IP, subs: seq<SubPacket>): (tasks: seq<Task>)
    ensures |tasks| == |subs|
    ensures forall i :: 0 <= i < |subs| ==> tasks[i] == Task(h.hopIP, h.port, subs[i].userID, origin, subs[i].data)
  {
    seq(|subs|, i requires 0 <= i < |subs| => Task(h.hopIP, h.port, subs[i].userID, origin, subs[i].data))
  }

  function Handled(pkt: seq<Byte>): Outcome {
    if |pkt| < HEADER_SIZE then Drop
    else
      var h := HeadOf(pkt);
      if h.port != 0 then
        if LastRequestHop(h) then
          match Parsed(pkt, |pkt|)
          case None => Drop
          case Some((_, subs)) =>
            if subs == [] || h.hopIP[h.hopPos + 1] == 0 then Drop
            else ToOrigin(h.protocol == UDP, TasksOf(h, h.hopIP[h.hopPos + 1], subs))
        else SendOn(h, pkt)
      else if LastResponseHop(h) then
        match Parsed(pkt, |pkt|)
        case None => Drop
        case Some((_, subs)) => if subs == [] then Drop else Deliver(subs)
      else SendOn(h, pkt)
  }

  /** `HandleQUICPacket`.  A packet that is forwarded has its hop position raised in place. */
  method HandleQUICPacket(pkt: array<Byte>) returns (out: Outcome)
    modifies pkt
    ensures out == Handled(old(pkt[..]))
    ensures out.Forward? ==> pkt[..] == out.pkt
    ensures !out.Forward? ==> pkt[..] == old(pkt[..])
  {
    hide HeadOf, Decode;
    if pkt.Length < HEADER_SIZE {
      return Drop;
    }
    var parsed := ParseHeader(pkt[..]);
    if parsed.None? {
      return Drop;
    }
    var header := parsed.value;
    if header.port != 0 {
      var isLastHop := header.hopPos == 2;
      if header.hopPos + 2 < MAX_HOPS {
        if header.hopIP[header.hopPos + 2] == 0 {
          isLastHop := true;
        }
      }
      if isLastHop {
        var p := Parse(pkt[..], pkt.Length);
        if p.None? || |p.value.1| == 0 {
          return Drop;
        }
        var origin := header.hopIP[header.hopPos + 1];
        if origin == 0 {
          return Drop;
        }
        var tasks := [];
        for i := 0 to |p.value.1|
          invariant tasks == TasksOf(header, origin, p.value.1)[..i]
        {
          var sub := p.value.1[i];
          tasks := tasks + [Task(header.hopIP, header.port, sub.userID, origin, sub.data)];
        }
        return ToOrigin(header.protocol == UDP, tasks);
      }
    } else {
      var isLastHop := header.hopPos == 3;
      if header.hopPos + 1 < MAX_HOPS {
        if header.hopIP[header.hopPos + 1] == 0 {
          isLastHop := true;
        }
      }
      if isLastHop {
        var p := Parse(pkt[..], pkt.Length);
        if p.None? || |p.value.1| == 0 {
          return Drop;
        }
        return Deliver(p.value.1);
      }
    }
    var next := (header.hopPos + 1) % 0x100;
    if next >= MAX_HOPS {
      return Panic;
    }
    AdvanceRawHop(pkt);
    return Forward(header.hopIP[next], pkt[..]);
  }

  // ---------- A packet's way ----------

  /** The nodes that handle a packet, starting at a given one, and what the last of them
      makes of it.  A packet sent on with its position unchanged goes round for ever; its
      way is cut there. */
  datatype Way = Way(nodes: seq<IP>, end: Outcome)

  function Travel(pkt: seq<Byte>, at: IP): Way
    decreases if |pkt| > 0 then 0xFF - pkt[0] else 0
  {
    var out := Handled(pkt);
    if out.Forward? && |pkt| > 0 && |out.pkt| > 0 && out.pkt[0] > pkt[0] then
      var rest := Travel(out.pkt, out.next);
      Way([at] + rest.nodes, rest.end)
    else Way([at], out)
  }

  /** Each forwarding raises the hop position by one and changes nothing else, except for
      a packet at position 255, which comes back unchanged. */
  lemma ForwardRaises(pkt: seq<Byte>)
    requires Handled(pkt).Forward?
    ensures |pkt| >= HEADER_SIZE && (pkt[0] < 3 || pkt[0] == 0xFF)
    ensures Handled(pkt).pkt == (if pkt[0] < 3 then pkt[0 := pkt[0] + 1] else pkt)
  {
    hide Decode, Un16, Un32;
  }

  /** The header of a packet on its way: as sent, but for the position. */
  lemma AdvancedHeader(pkt: seq<Byte>)
    requires |pkt| >= HEADER_SIZE && pkt[0] < 3
    ensures |Advanced(pkt)| == |pkt| && HeadOf(Advanced(pkt)) == HeadOf(pkt).(hopPos := pkt[0] + 1)
    ensures Advanced(pkt)[HEADER_SIZE..] == pkt[HEADER_SIZE..]
  {
    hide Un16, Un32;
    var a := Advanced(pkt);
    assert forall i :: 1 <= i < |pkt| ==> a[i] == pkt[i];
    assert a[1..5] == pkt[1..5] && a[5..9] == pkt[5..9] && a[9..13] == pkt[9..13] && a[13..17] == pkt[13..17];
    assert a[17..19] == pkt[17..19] && a[19..21] == pkt[19..21];
  }

  lemma AdvancedParsed(pkt: seq<Byte>)
    requires |pkt| >= HEADER_SIZE && pkt[0] < 3
    ensures var p, q := Parsed(pkt, |pkt|), Parsed(Advanced(pkt), |pkt|);
            (p.None? <==> q.None?) && (p.Some? ==> q.value.1 == p.value.1)
  {
    AdvancedHeader(pkt);
    hide HeadOf, Decode, Advanced;
    var h := HeadOf(pkt);
    var end := HEADER_SIZE + h.payloadLen;
    if end <= |pkt| {
      var a := Advanced(pkt);
      assert a[HEADER_SIZE..end] == a[HEADER_SIZE..][..h.payloadLen] && pkt[HEADER_SIZE..end] == pkt[HEADER_SIZE..][..h.payloadLen];
    }
  }

  /** A packet ready to be sent: header, sub-packets, bytes. */
  ghost predicate Carries(h: Header, subs: seq<SubPacket>, pkt: seq<Byte>) {
    |pkt| >= HEADER_SIZE && WellFormed(h) && HeadOf(pkt) == h && Parsed(pkt, |pkt|) == Some((h, subs))
  }

  /** A forwarded packet carries the same sub-packets under the raised position. */
  lemma StepForward(h: Header, subs: seq<SubPacket>, pkt: seq<Byte>, at: IP)
    requires Carries(h, subs, pkt) && h.hopPos < 3
    requires Handled(pkt) == SendOn(h, pkt)
    ensures Carries(h.(hopPos := h.hopPos + 1), subs, Advanced(pkt))
    ensures var rest := Travel(Advanced(pkt), h.hopIP[h.hopPos + 1]);
            Travel(pkt, at) == Way([at] + rest.nodes, rest.end)
  {
    hide HeadOf, Decode, Handled, Parsed, Carries;
    CarriesPosition(h, subs, pkt);
    CarriesOn(h, subs, pkt);
    TravelOn(pkt, at, h.hopIP[h.hopPos + 1]);
  }

  lemma CarriesOn(h: Header, subs: seq<SubPacket>, pkt: seq<Byte>)
    requires Carries(h, subs, pkt) && pkt[0] == h.hopPos < 3
    ensures Carries(h.(hopPos := h.hopPos + 1), subs, Advanced(pkt))
  {
    hide HeadOf, Decode, Parsed;
    AdvancedHeader(pkt);
    AdvancedParsed(pkt);
    ParsedHeader(Advanced(pkt));
  }

  lemma TravelOn(pkt: seq<Byte>, at: IP, next: IP)
    requires |pkt| >= HEADER_SIZE && pkt[0] < 3 && Handled(pkt) == Forward(next, Advanced(pkt))
    ensures var rest := Travel(Advanced(pkt), next); Travel(pkt, at) == Way([at] + rest.nodes, rest.end)
  {
    hide Handled;
  }

  lemma CarriesPosition(h: Header, subs: seq<SubPacket>, pkt: seq<Byte>)
    requires Carries(h, subs, pkt)
    ensures |pkt| >= HEADER_SIZE && |h.hopIP| == MAX_HOPS && pkt[0] == h.hopPos
  {
    hide Un16, Un32, Decode, Parsed;
  }

  lemma ParsedHeader(pkt: seq<Byte>)
    requires |pkt| >= HEADER_SIZE && Parsed(pkt, |pkt|).Some?
    ensures Parsed(pkt, |pkt|).value.0 == HeadOf(pkt)
  {
    hide HeadOf, Decode;
  }

  lemma StepEnd(pkt: seq<Byte>, at: IP)
    requires !Handled(pkt).Forward?
    ensures Travel(pkt, at) == Way([at], Handled(pkt))
  {
    hide Handled;
  }

  // ---------- Requests ----------

  ghost predicate Nonzero(hops: seq<IP>) {
    forall i :: 0 <= i < |hops| ==> hops[i] != 0
  }

  /** The request visits exactly the hops between ingress and origin, in order, and the last
      of them submits each sub-packet, unchanged, for the last hop as origin. */
  ghost predicate RequestArrives(hops: seq<IP>, h: Header, subs: seq<SubPacket>, way: Way)
    requires |hops| >= 2
  {
    way.nodes == hops[1..|hops| - 1] && way.end == ToOrigin(h.protocol == UDP, TasksOf(h, hops[|hops| - 1], subs))
  }

  lemma ThreeHopRequest(hops: seq<IP>, h: Header, subs: seq<SubPacket>, pkt: seq<Byte>)
    requires |hops| == 3 && Nonzero(hops) && Carries(h, subs, pkt) && subs != []
    requires h.hopPos == 1 && h.hopIP == Padded(hops) && h.port != 0
    ensures RequestArrives(hops, h, subs, Travel(pkt, hops[1]))
  {
    hide HeadOf, Decode, Parsed, Travel;
    StepEnd(pkt, hops[1]);
    assert hops[1..2] == [hops[1]];
  }

  lemma FourHopRequest(hops: seq<IP>, h: Header, subs: seq<SubPacket>, pkt: seq<Byte>)
    requires |hops| >= 4 && Nonzero(hops[..4]) && Carries(h, subs, pkt) && subs != []
    requires h.hopPos == 1 && h.hopIP == Padded(hops) && h.port != 0
    ensures Travel(pkt, hops[1]) == Way([hops[1], hops[2]], ToOrigin(h.protocol == UDP, TasksOf(h, hops[3], subs)))
  {
    hide HeadOf, Decode, Parsed, Travel, Advanced;
    assert hops[..4][3] == hops[3] && hops[..4][2] == hops[2];
    StepForward(h, subs, pkt, hops[1]);
    StepEnd(Advanced(pkt), hops[2]);
    assert TasksOf(h.(hopPos := 2), hops[3], subs) == TasksOf(h, hops[3], subs);
  }

  /** Without a port the packet is taken for a response and never reaches an origin. */
  lemma {:induction false} NoPortNoOrigin(pkt: seq<Byte>, at: IP)
    requires |pkt| >= HEADER_SIZE && HeadOf(pkt).port == 0
    ensures !Travel(pkt, at).end.ToOrigin?
    decreases 0xFF - pkt[0]
  {
    var out := Handled(pkt);
    if out.Forward? && out.pkt[0] > pkt[0] {
      ForwardRaises(pkt);
      AdvancedHeader(pkt);
      NoPortNoOrigin(out.pkt, out.next);
    }
  }

  lemma TwoHopRequest(hops: seq<IP>, h: Header, subs: seq<SubPacket>, pkt: seq<Byte>)
    requires |hops| == 2 && Carries(h, subs, pkt) && h.hopPos == 1 && h.hopIP == Padded(hops) && h.port != 0
    ensures Travel(pkt, hops[1]).end == Drop
  {
    hide HeadOf, Decode, Parsed;
  }

  /** A request of nonzero hops is routed as intended exactly when it has three or four hops
      and a port. */
  lemma RequestRoutedIff(hops: seq<IP>, h: Header, subs: seq<SubPacket>, pkt: seq<Byte>)
    requires |hops| >= 2 && Nonzero(hops) && Carries(h, subs, pkt) && subs != []
    requires h.hopPos == 1 && h.hopIP == Padded(hops)
    ensures RequestArrives(hops, h, subs, Travel(pkt, hops[1])) <==> 3 <= |hops| <= 4 && h.port != 0
  {
    hide HeadOf, Handled, Travel;
    if h.port == 0 {
      NoPortNoOrigin(pkt, hops[1]);
    } else if |hops| == 2 {
      TwoHopRequest(hops, h, subs, pkt);
    } else if |hops| == 3 {
      ThreeHopRequest(hops, h, subs, pkt);
    } else {
      FourHopRequest(hops, h, subs, pkt);
      assert |hops| == 4 ==> hops[1..3] == [hops[1], hops[2]];
    }
  }

  // ---------- Responses ----------

  function Reversed(s: seq<IP>): (r: seq<IP>)
    ensures |r| == |s| && forall i :: 0 <= i < |s| ==> r[i] == s[|s| - 1 - i]
  {
    if s == [] then [] else Reversed(s[1..]) + [s[0]]
  }

  function DropZeros(s: seq<IP>): seq<IP> {
    if s == [] then [] else (if s[0] == 0 then [] else [s[0]]) + DropZeros(s[1..])
  }

  /** Exactly the zeros go. */
  lemma {:induction false} DropZerosKeepsRest(s: seq<IP>)
    ensures multiset(DropZeros(s)) == multiset(s)[0 := 0]
  {
    if s != [] {
      DropZerosKeepsRest(s[1..]);
      assert s == [s[0]] + s[1..];
    }
  }

  /** The hops of the response: those of the request backwards, without the origin. */
  function ResponseHops(hopIP: seq<IP>): seq<IP> {
    var hops := DropZeros(Reversed(hopIP));
    if |hops| > 1 then hops[1..] else hops
  }

  /** The routing part of `doOriginRequest`; the next hop is the second one, and a missing
      second hop is an index out of range. */
  method ResponseRoute(hopIP: seq<IP>) returns (hops: seq<IP>, next: Option<IP>)
    ensures hops == ResponseHops(hopIP)
    ensures next == if |hops| > 1 then Some(hops[1]) else None
  {
    hide Reversed, DropZeros;
    hops := [];
    assert hopIP[..|hopIP|] == hopIP;
    NoHopsLeft();
    var i := |hopIP| - 1;
    while i >= 0
      invariant -1 <= i < |hopIP|
      invariant hops + DropZeros(Reversed(hopIP[..i + 1])) == DropZeros(Reversed(hopIP))
    {
      assert hopIP[..i + 1] == hopIP[..i] + [hopIP[i]];
      LastHopFirst(hopIP[..i], hopIP[i]);
      if hopIP[i] != 0 {
        hops := hops + [hopIP[i]];
      }
      i := i - 1;
    }
    if |hops| > 1 {
      hops := hops[1..];
    }
    next := if |hops| > 1 then Some(hops[1]) else None;
  }

  lemma LastHopFirst(s: seq<IP>, x: IP)
    ensures DropZeros(Reversed(s + [x])) == (if x == 0 then [] else [x]) + DropZeros(Reversed(s))
  {
    assert Reversed(s + [x]) == [x] + Reversed(s);
    assert ([x] + Reversed(s))[1..] == Reversed(s);
  }

  lemma NoHopsLeft()
    ensures DropZeros(Reversed([])) == []
  {
  }

  /** The response retraces the request's hops to the ingress, which delivers every
      sub-packet. */
  ghost predicate ResponseArrives(hops: seq<IP>, subs: seq<SubPacket>, way: Way)
    requires |hops| >= 3
  {
    way.nodes == Reversed(hops[..|hops| - 2]) && way.end == Deliver(subs)
  }

  lemma ResponseHopsOfRoute(hops: seq<IP>)
    requires 3 <= |hops| <= 4 && Nonzero(hops)
    ensures ResponseHops(Padded(hops)) == Reversed(hops)[1..]
  {
    hide Reversed, DropZeros, Padded;
    var back := Reversed(hops);
    DropNothing(back);
    PaddedReversed(hops);
    DropLeadingZero(back);
    assert DropZeros(Reversed(Padded(hops))) == back;
  }

  lemma PaddedReversed(hops: seq<IP>)
    requires 3 <= |hops| <= 4
    ensures |hops| == 3 ==> Reversed(Padded(hops)) == [0] + Reversed(hops)
    ensures |hops| == 4 ==> Reversed(Padded(hops)) == Reversed(hops)
  {
    hide Reversed, Padded;
    var p := Padded(hops);
    var a, b := Reversed(p), Reversed(hops);
    assert a[0] == p[3] && a[1] == p[2] && a[2] == p[1] && a[3] == p[0];
    if |hops| == 3 {
      assert b[0] == p[2] && b[1] == p[1] && b[2] == p[0] && p[3] == 0;
      SameFour(a, [0] + b);
    } else {
      assert b[0] == p[3] && b[1] == p[2] && b[2] == p[1] && b[3] == p[0];
      SameFour(a, b);
    }
  }

  lemma SameFour(a: seq<IP>, b: seq<IP>)
    requires |a| == 4 && |b| == 4 && a[0] == b[0] && a[1] == b[1] && a[2] == b[2] && a[3] == b[3]
    ensures a == b
  {
  }

  lemma DropLeadingZero(s: seq<IP>)
    ensures DropZeros([0] + s) == DropZeros(s)
  {
    assert ([0] + s)[1..] == s;
  }

  lemma {:induction false} DropNothing(s: seq<IP>)
    requires Nonzero(s)
    ensures DropZeros(s) == s
  {
    if s != [] {
      DropNothing(s[1..]);
    }
  }

  lemma ResponseRouted(hops: seq<IP>, h: Header, subs: seq<SubPacket>, pkt: seq<Byte>)
    requires 3 <= |hops| <= 4 && Nonzero(hops) && Carries(h, subs, pkt) && subs != []
    requires h.hopPos == 1 && h.hopIP == Padded(ResponseHops(Padded(hops))) && h.port == 0
    ensures |ResponseHops(Padded(hops))| > 1
    ensures ResponseArrives(hops, subs, Travel(pkt, ResponseHops(Padded(hops))[1]))
  {
    hide Carries, Travel, Padded, ResponseHops, Nonzero, ResponseArrives;
    ResponseHopsOfRoute(hops);
    if |hops| == 3 {
      ThreeHopResponse(hops, h, subs, pkt, ResponseHops(Padded(hops)));
    } else {
      FourHopResponse(hops, h, subs, pkt, ResponseHops(Padded(hops)));
    }
  }

  lemma ThreeHopResponse(hops: seq<IP>, h: Header, subs: seq<SubPacket>, pkt: seq<Byte>, back: seq<IP>)
    requires |hops| == 3 && Nonzero(hops) && Carries(h, subs, pkt) && subs != [] && back == Reversed(hops)[1..]
    requires h.hopPos == 1 && h.hopIP == Padded(back) && h.port == 0
    ensures ResponseArrives(hops, subs, Travel(pkt, back[1]))
  {
    hide HeadOf, Decode, Parsed, Travel, Advanced;
    assert back[0] == hops[1] && back[1] == hops[0];
    StepEnd(pkt, back[1]);
    assert Reversed(hops[..1]) == [hops[0]];
  }

  lemma FourHopResponse(hops: seq<IP>, h: Header, subs: seq<SubPacket>, pkt: seq<Byte>, back: seq<IP>)
    requires |hops| == 4 && Nonzero(hops) && Carries(h, subs, pkt) && subs != [] && back == Reversed(hops)[1..]
    requires h.hopPos == 1 && h.hopIP == Padded(back) && h.port == 0
    ensures ResponseArrives(hops, subs, Travel(pkt, back[1]))
  {
    hide HeadOf, Decode, Parsed, Travel, Advanced;
    assert back[0] == hops[2] && back[1] == hops[1] && back[2] == hops[0];
    StepForward(h, subs, pkt, back[1]);
    StepEnd(Advanced(pkt), back[2]);
    assert Reversed(hops[..2]) == [hops[1], hops[0]];
  }

  // ---------- End to end ----------

  /** Sub-packets that survive being packed. */
  ghost predicate Fits(subs: seq<SubPacket>) {
    subs != [] && |Encode(subs)| <= 0xFFFF && subs[|subs| - 1].data != []
  }

  lemma WireCarries(h: Header, subs: seq<SubPacket>, bytes: seq<Byte>)
    requires Wire(h, subs, bytes) && Fits(subs)
    ensures Carries(h, subs, bytes)
  {
    hide HeadOf, Decode, Encode;
    RoundTripIff(h, subs, bytes);
    ParsedHeader(bytes);
  }

  /** For every route of three or four nonzero hops and every port: the request reaches the
      proxy before the origin over exactly the hops in between, and the response built from
      the addresses its tasks carry retraces them to the ingress, payloads unchanged. */
  lemma RequestAndResponse(hops: seq<IP>, h: Header, subs: seq<SubPacket>, bytes: seq<Byte>,
                           back: Header, rsubs: seq<SubPacket>, rbytes: seq<Byte>)
    requires 3 <= |hops| <= 4 && Nonzero(hops)
    requires h.hopPos == 1 && h.hopIP == Padded(hops) && h.port != 0 && Wire(h, subs, bytes) && Fits(subs)
    requires back.hopPos == 1 && back.port == 0 && Wire(back, rsubs, rbytes) && Fits(rsubs)
    requires Travel(bytes, hops[1]).end.ToOrigin? ==>
               exists task :: task in Travel(bytes, hops[1]).end.tasks && back.hopIP == Padded(ResponseHops(task.hopIP))
    ensures RequestArrives(hops, h, subs, Travel(bytes, hops[1]))
    ensures |ResponseHops(Padded(hops))| > 1
    ensures ResponseArrives(hops, rsubs, Travel(rbytes, ResponseHops(Padded(hops))[1]))
  {
    hide Travel, Encode, Wire, ResponseHops;
    WireCarries(h, subs, bytes);
    RequestRoutedIff(hops, h, subs, bytes);
    WireCarries(back, rsubs, rbytes);
    ResponseRouted(hops, back, rsubs, rbytes);
  }

  /** Exactly which packets run an index out of range. */
  lemma PanicIff(pkt: seq<Byte>)
    ensures Handled(pkt).Panic? <==>
            |pkt| >= HEADER_SIZE && (if HeadOf(pkt).port != 0 then 3 else 4) <= pkt[0] < 0xFF
  {
    hide Un16, Un32, Decode;
  }
}
