/** The protocol layers a frame decodes to: the decodeEthernet .. decodeHTTP chain of Packet.cpp.
    A layer pointer is the offset of the layer inside the captured bytes. */
module Decode {
  import opened Bytes

  const ETHERNET_HEADER_LENGTH: nat := 14
  const UDP_HEADER_LENGTH: nat := 8
  const ETHERNET_TYPE_IP := 0x0800
  const ETHERNET_TYPE_ARP := 0x0806
  const PROTOCOL_ICMP := 1
  const PROTOCOL_TCP := 6
  const PROTOCOL_UDP := 17
  const PORT_DNS := 53
  const PORT_DHCP_CLIENT := 67
  const PORT_DHCP_SERVER := 68
  const PORT_HTTP := 80

  datatype Layers = Layers(
    ethh: Option<nat>, iph: Option<nat>, arph: Option<nat>, icmph: Option<nat>, udph: Option<nat>,
    tcph: Option<nat>, dnsh: Option<nat>, dhcph: Option<nat>, httpmsg: Option<nat>, protocol: string)

  const NO_LAYERS := Layers(None, None, None, None, None, None, None, None, None, "")

  /** Every byte the decode chain reads lies inside the frame. */
  predicate Decodable(d: seq<byte>) {
    |d| >= ETHERNET_HEADER_LENGTH &&
    (BE16(d, 12) == ETHERNET_TYPE_IP ==> DecodableIP(d, ETHERNET_HEADER_LENGTH))
  }

  predicate DecodableIP(d: seq<byte>, ip: nat) {
    ip + 10 <= |d| &&
    var next := ip + IPHeaderLength(d, ip);
    (d[ip + 9] == PROTOCOL_TCP ==> next + 14 <= |d|) &&
    (d[ip + 9] == PROTOCOL_UDP ==> next + 4 <= |d|)
  }

  function IPHeaderLength(d: seq<byte>, ip: nat): nat
    requires ip < |d|
  {
    d[ip] % 16 * 4
  }

  function TCPHeaderLength(d: seq<byte>, tcp: nat): nat
    requires tcp + 14 <= |d|
  {
    BE16(d, tcp + 12) / 4096 * 4
  }

  /** The layer pointers that getL4PayloadLength dereferences are inside the frame. */
  predicate InFrame(l: Layers, d: seq<byte>) {
    (l.iph.Some? ==> l.iph.value + 10 <= |d|) && (l.tcph.Some? ==> l.tcph.value + 14 <= |d|)
  }

  function L4PayloadLength(l: Layers, d: seq<byte>): int
    requires InFrame(l, d)
  {
    if l.iph.None? || l.tcph.None? then 0
    else BE16(d, l.iph.value + 2) - IPHeaderLength(d, l.iph.value) - TCPHeaderLength(d, l.tcph.value)
  }

  function IntoEthernet(l: Layers, d: seq<byte>): Layers
    requires Decodable(d)
  {
    var l1 := l.(protocol := "Ethernet", ethh := Some(0));
    if BE16(d, 12) == ETHERNET_TYPE_IP then IntoIP(l1, d, ETHERNET_HEADER_LENGTH)
    else if BE16(d, 12) == ETHERNET_TYPE_ARP then l1.(protocol := "ARP", arph := Some(ETHERNET_HEADER_LENGTH))
    else l1
  }

  function IntoIP(l: Layers, d: seq<byte>, ip: nat): Layers
    requires DecodableIP(d, ip)
  {
    var l1 := l.(protocol := "IPv4", iph := Some(ip));
    var next := ip + IPHeaderLength(d, ip);
    if d[ip + 9] == PROTOCOL_ICMP then l1.(protocol := "ICMP", icmph := Some(next))
    else if d[ip + 9] == PROTOCOL_TCP then IntoTCP(l1, d, next)
    else if d[ip + 9] == PROTOCOL_UDP then IntoUDP(l1, d, next)
    else l1
  }

  function IntoTCP(l: Layers, d: seq<byte>, tcp: nat): Layers
    requires tcp + 14 <= |d| && (l.iph.Some? ==> l.iph.value + 10 <= |d|)
  {
    var l1 := l.(protocol := "TCP", tcph := Some(tcp));
    var payload := tcp + TCPHeaderLength(d, tcp);
    if BE16(d, tcp) == PORT_DNS || BE16(d, tcp + 2) == PORT_DNS then
      l1.(protocol := "DNS", dnsh := Some(payload))
    else if BE16(d, tcp) == PORT_HTTP || BE16(d, tcp + 2) == PORT_HTTP then
      if L4PayloadLength(l1, d) > 0 then l1.(protocol := "HTTP", httpmsg := Some(payload)) else l1
    else l1
  }

  function IntoUDP(l: Layers, d: seq<byte>, udp: nat): Layers
    requires udp + 4 <= |d|
  {
    var l1 := l.(protocol := "UDP", udph := Some(udp));
    var src, dst := BE16(d, udp), BE16(d, udp + 2);
    if src == PORT_DNS || dst == PORT_DNS then l1.(protocol := "DNS", dnsh := Some(udp + UDP_HEADER_LENGTH))
    else if (src == PORT_DHCP_CLIENT && dst == PORT_DHCP_SERVER)
         || (src == PORT_DHCP_SERVER && dst == PORT_DHCP_CLIENT) then
      l1.(protocol := "DHCP", dhcph := Some(udp + UDP_HEADER_LENGTH))
    else l1
  }

  /** The layers of a frame decoded from scratch. */
  function Layer(d: seq<byte>): (l: Layers)
    requires Decodable(d)
    ensures InFrame(l, d)
  {
    IntoEthernet(NO_LAYERS, d)
  }

  /** The label of the deepest layer that is set. */
  function DeepestLabel(l: Layers): string {
    if l.httpmsg.Some? then "HTTP"
    else if l.dhcph.Some? then "DHCP"
    else if l.dnsh.Some? then "DNS"
    else if l.tcph.Some? then "TCP"
    else if l.udph.Some? then "UDP"
    else if l.icmph.Some? then "ICMP"
    else if l.arph.Some? then "ARP"
    else if l.iph.Some? then "IPv4"
    else "Ethernet"
  }

  /** `inner` is absent, or it follows a present `outer` and does not start before it. */
  predicate Nested(outer: Option<nat>, inner: Option<nat>) {
    inner.Some? ==> outer.Some? && outer.value <= inner.value
  }

  predicate Either(a: Option<nat>, b: Option<nat>) { !(a.Some? && b.Some?) }

  /** The stack a decoded frame forms: who needs whom, who excludes whom, offsets growing inwards. */
  predicate WellLayered(l: Layers) {
    && l.ethh == Some(0)
    && Nested(l.ethh, l.iph) && Nested(l.ethh, l.arph) && Either(l.iph, l.arph)
    && Nested(l.iph, l.icmph) && Nested(l.iph, l.tcph) && Nested(l.iph, l.udph)
    && Either(l.icmph, l.tcph) && Either(l.icmph, l.udph) && Either(l.tcph, l.udph)
    && Nested(if l.tcph.Some? then l.tcph else l.udph, l.dnsh)
    && Nested(l.udph, l.dhcph) && Nested(l.tcph, l.httpmsg)
    && Either(l.dnsh, l.dhcph) && Either(l.dnsh, l.httpmsg)
    && l.protocol == DeepestLabel(l)
  }

  /** The layers of a frame whose Ethernet type is IP, before the transport is looked at. */
  const IP_ONLY := NO_LAYERS.(protocol := "IPv4", ethh := Some(0), iph := Some(ETHERNET_HEADER_LENGTH))

  lemma TCPLayering(d: seq<byte>, tcp: nat)
    requires |d| >= 24 && ETHERNET_HEADER_LENGTH <= tcp && tcp + 14 <= |d|
    ensures var l := IntoTCP(IP_ONLY, d, tcp);
      WellLayered(l) && InFrame(l, d) && (l.httpmsg.Some? ==> L4PayloadLength(l, d) > 0)
  {
  }

  lemma UDPLayering(d: seq<byte>, udp: nat)
    requires |d| >= 24 && ETHERNET_HEADER_LENGTH <= udp && udp + 4 <= |d|
    ensures var l := IntoUDP(IP_ONLY, d, udp); WellLayered(l) && l.httpmsg.None?
  {
  }

  lemma DecodeLayering(d: seq<byte>)
    requires Decodable(d)
    ensures WellLayered(Layer(d))
    ensures Layer(d).httpmsg.Some? ==> L4PayloadLength(Layer(d), d) > 0
  {
    hide IntoTCP, IntoUDP, L4PayloadLength;
    if BE16(d, 12) == ETHERNET_TYPE_IP {
      var next := 14 + IPHeaderLength(d, 14);
      if d[23] == PROTOCOL_TCP {
        TCPLayering(d, next);
      } else if d[23] == PROTOCOL_UDP {
        UDPLayering(d, next);
      }
    }
  }

  // ---------------------------------------------------------------- layers from raw bytes

  /** The two bytes at `i`, most significant first. */
  function Word16(d: seq<byte>, i: nat): int
    requires i + 2 <= |d|
  {
    d[i] as int * 256 + d[i + 1]
  }

  /** Where the transport header of an IP frame stands. */
  function Transport(d: seq<byte>): nat
    requires |d| > 14
  {
    14 + 4 * (d[14] % 16)
  }

  /** The bytes 12 and 13 choose between IP, ARP and nothing. */
  lemma EthernetIs(d: seq<byte>)
    requires Decodable(d)
    ensures |d| >= 14
    ensures var l, t := Layer(d), Word16(d, 12);
      && l.ethh == Some(0)
      && l.arph == (if t == 0x0806 then Some(14) else None)
      && l.iph == (if t == 0x0800 then Some(14) else None)
      && (t == 0x0806 ==> l.protocol == "ARP")
      && (t != 0x0800 && t != 0x0806 ==> l.protocol == "Ethernet")
      && (t != 0x0800 ==>
           l.icmph.None? && l.tcph.None? && l.udph.None? && l.dnsh.None? && l.dhcph.None? && l.httpmsg.None?)
  {
    hide DecodableIP;
    if BE16(d, 12) == ETHERNET_TYPE_IP {
      IPIs(d);
    }
  }

  /** Byte 23 of an IP frame chooses the transport, which follows the IP header of 4 * (byte 14 mod 16) bytes. */
  lemma IPIs(d: seq<byte>)
    requires Decodable(d) && Word16(d, 12) == 0x0800
    ensures |d| >= 24
    ensures var l, u := Layer(d), Transport(d);
      && l.ethh == Some(0) && l.iph == Some(14) && l.arph.None?
      && l.icmph == (if d[23] == 1 then Some(u) else None)
      && l.tcph == (if d[23] == 6 then Some(u) else None)
      && l.udph == (if d[23] == 17 then Some(u) else None)
      && (d[23] == 1 ==> l.protocol == "ICMP")
      && (d[23] != 1 && d[23] != 6 && d[23] != 17 ==> l.protocol == "IPv4")
      && (d[23] != 6 && d[23] != 17 ==> l.dnsh.None? && l.dhcph.None? && l.httpmsg.None?)
  {
    hide IntoTCP, IntoUDP, L4PayloadLength;
    if d[23] == 6 {
      TCPPointer(d);
    } else if d[23] == 17 {
      UDPPointer(d);
    }
  }

  lemma TCPPointer(d: seq<byte>)
    requires Decodable(d) && Word16(d, 12) == 0x0800 && d[23] == 6
    ensures Transport(d) + 14 <= |d| && Layer(d) == IntoTCP(IP_ONLY, d, Transport(d))
    ensures var l := Layer(d);
      && l.ethh == Some(0) && l.iph == Some(14) && l.arph.None?
      && l.icmph.None? && l.tcph == Some(Transport(d)) && l.udph.None?
  {
    hide L4PayloadLength;
  }

  lemma UDPPointer(d: seq<byte>)
    requires Decodable(d) && Word16(d, 12) == 0x0800 && d[23] == 17
    ensures Transport(d) + 4 <= |d| && Layer(d) == IntoUDP(IP_ONLY, d, Transport(d))
    ensures var l := Layer(d);
      && l.ethh == Some(0) && l.iph == Some(14) && l.arph.None?
      && l.icmph.None? && l.udph == Some(Transport(d)) && l.tcph.None?
  {
  }

  /** UDP: port 53 on either side is DNS; otherwise the pair 67 and 68, in either order, is DHCP. Both follow
      the 8 bytes of the UDP header. */
  lemma UDPIs(d: seq<byte>)
    requires Decodable(d) && Word16(d, 12) == 0x0800 && d[23] == 17
    ensures Transport(d) + 4 <= |d|
    ensures var l, u := Layer(d), Transport(d);
      var a, b := Word16(d, u), Word16(d, u + 2);
      var dns := a == 53 || b == 53;
      var dhcp := !dns && ((a == 67 && b == 68) || (a == 68 && b == 67));
      && l.dnsh == (if dns then Some(u + 8) else None)
      && l.dhcph == (if dhcp then Some(u + 8) else None)
      && l.httpmsg.None?
      && l.protocol == (if dns then "DNS" else if dhcp then "DHCP" else "UDP")
  {
    UDPPointer(d);
  }

  /** TCP: port 53 on either side is DNS; otherwise port 80 is HTTP if the payload is not empty. Both follow the
      TCP header, whose length is 4 times the upper half of its byte 12. */
  lemma TCPIs(d: seq<byte>)
    requires Decodable(d) && Word16(d, 12) == 0x0800 && d[23] == 6
    ensures Transport(d) + 14 <= |d|
    ensures var l, u := Layer(d), Transport(d);
      var a, b, h := Word16(d, u), Word16(d, u + 2), 4 * (d[u + 12] / 16);
      var dns := a == 53 || b == 53;
      var http := !dns && (a == 80 || b == 80) && Word16(d, 16) > u - 14 + h;
      && l.dnsh == (if dns then Some(u + h) else None)
      && l.httpmsg == (if http then Some(u + h) else None)
      && l.dhcph.None?
      && l.protocol == (if dns then "DNS" else if http then "HTTP" else "TCP")
      && L4PayloadLength(l, d) == Word16(d, 16) - (u - 14) - h
  {
    hide Decodable;
    TCPPointer(d);
    var u := Transport(d);
    assert TCPHeaderLength(d, u) == 4 * (d[u + 12] / 16);
    assert IPHeaderLength(d, 14) == u - 14;
  }

  /** Without IP and TCP there is no payload. */
  lemma NoPayload(d: seq<byte>)
    requires Decodable(d) && !(Word16(d, 12) == 0x0800 && d[23] == 6)
    ensures L4PayloadLength(Layer(d), d) == 0
  {
    EthernetIs(d);
    if Word16(d, 12) == 0x0800 {
      IPIs(d);
    }
  }

  /** The HTTP payload ends where the IP total length says: whatever link-layer padding
      follows that byte is not part of it. */
  lemma HttpPayloadEnd(d: seq<byte>)
    requires Decodable(d) && Layer(d).httpmsg.Some?
    ensures |d| >= 18
    ensures Layer(d).httpmsg.value + L4PayloadLength(Layer(d), d) == ETHERNET_HEADER_LENGTH + BE16(d, 16)
  {
    if BE16(d, 12) == ETHERNET_TYPE_IP && d[23] == PROTOCOL_TCP {
      assert Layer(d) == IntoTCP(IP_ONLY, d, 14 + IPHeaderLength(d, 14));
    }
  }

  /** Decoding over layers that still hold an old HTTP pointer: everything but that pointer is
      as if decoded from scratch, and that pointer is stale unless the new frame sets it. */
  lemma StaleHttp(stale: Option<nat>, text: string, d: seq<byte>)
    requires Decodable(d)
    ensures IntoEthernet(NO_LAYERS.(httpmsg := stale, protocol := text), d)
         == Layer(d).(httpmsg := if Layer(d).httpmsg.Some? then Layer(d).httpmsg else stale)
  {
    var l := NO_LAYERS.(protocol := "IPv4", ethh := Some(0), iph := Some(14));
    if BE16(d, 12) == ETHERNET_TYPE_IP {
      var next := 14 + IPHeaderLength(d, 14);
      if d[23] == PROTOCOL_TCP {
        assert Layer(d) == IntoTCP(l, d, next);
        assert L4PayloadLength(l.(tcph := Some(next)), d)
            == L4PayloadLength(l.(httpmsg := stale, tcph := Some(next)), d);
      }
    }
  }
}
