/** The mutable Packet of Packet.cpp: two heap buffers and nine layer pointers that the constructors,
    `operator=` and the decode chain fill in step by step. Proved against PacketModel and Decode. */
module PacketObject {
  import opened Bytes
  import opened Decode
  import opened PacketModel

  class Packet {
    var ethh: Option<nat>
    var iph: Option<nat>
    var arph: Option<nat>
    var icmph: Option<nat>
    var udph: Option<nat>
    var tcph: Option<nat>
    var dnsh: Option<nat>
    var dhcph: Option<nat>
    var httpmsg: Option<nat>

    var pkt_data: array?<byte>
    ghost var Repr: set<object>
    var header: Option<Header>
    var num: nat
    var protocol: string

    ghost predicate Valid()
      reads this, Repr
    {
      && this in Repr && (pkt_data != null ==> pkt_data in Repr)
      && (pkt_data == null <==> header.None?)
      && (header.Some? ==> header.value.caplen <= pkt_data.Length && Decodable(Frame()))
    }

    /** The captured bytes; an enlarged buffer may hold more. */
    ghost function Frame(): seq<byte>
      requires header.Some? ==> pkt_data != null && header.value.caplen <= pkt_data.Length
      reads this, pkt_data
    {
      if header.Some? then pkt_data[..header.value.caplen] else []
    }

    ghost function Stack(): Layers
      reads this
    {
      Layers.Layers(ethh, iph, arph, icmph, udph, tcph, dnsh, dhcph, httpmsg, protocol)
    }

    ghost function View(): PacketVal
      requires Valid()
      reads this, Repr
    {
      PacketVal(num, if header.Some? then Some(Capture(header.value, Frame())) else None, Stack())
    }

    predicate IsEmpty()
      reads this
    {
      pkt_data == null || header.None?
    }

    /** The packet as a value. */
    method Value() returns (v: PacketVal)
      requires Valid()
      ensures v == View()
    {
      var layers := Layers.Layers(ethh, iph, arph, icmph, udph, tcph, dnsh, dhcph, httpmsg, protocol);
      if header.None? {
        return PacketVal(num, None, layers);
      }
      return PacketVal(num, Some(Capture(header.value, pkt_data[..header.value.caplen])), layers);
    }

    /** Packet() */
    constructor ()
      ensures Valid() && fresh(Repr) && View() == EMPTY_PACKET && pkt_data == null
    {
      ethh, iph, arph, icmph, udph, tcph, dnsh, dhcph, httpmsg :=
        None, None, None, None, None, None, None, None, None;
      pkt_data, num, header, protocol := null, NO_NUMBER, None, "";
      Repr := {this};
    }

    /** Packet(header, pkt_data, packetNum) */
    constructor FromCapture(h: Option<Header>, data: array?<byte>, packetNum: int)
      requires packetNum >= 0
      requires h.Some? && data != null ==> h.value.caplen <= data.Length && Decodable(data[..h.value.caplen])
      ensures Valid() && fresh(Repr)
      ensures View() ==
        if h.Some? && data != null then Direct(Capture(h.value, data[..h.value.caplen]), Num(packetNum))
        else EMPTY_PACKET.(num := Num(packetNum))
      ensures num == packetNum % 65536
      ensures if h.Some? && data != null
        then header == h && Frame() == data[..h.value.caplen] && Stack() == Layer(Frame())
        else header == None && pkt_data == null
    {
      ethh, iph, arph, icmph, udph, tcph, dnsh, dhcph, httpmsg :=
        None, None, None, None, None, None, None, None, None;
      num, protocol := packetNum % 65536, "";
      pkt_data, header, Repr := null, None, {this};
      new;
      if data != null && h.Some? {
        Load(h.value, data);
      }
    }

    /** Packet(const Packet&) */
    constructor Copy(p: Packet)
      requires p.Valid()
      ensures Valid() && fresh(Repr)
      ensures View() == AssignVal(EMPTY_PACKET, p.View())
    {
      ethh, iph, arph, icmph, udph, tcph, dnsh, dhcph, httpmsg :=
        None, None, None, None, None, None, None, None, None;
      num, protocol := NO_NUMBER, "";
      pkt_data, header, Repr := null, None, {this};
      new;
      if !p.IsEmpty() {
        num := p.num;
        Load(p.header.value, p.pkt_data);
      }
    }

    /** malloc (only when there is no buffer yet) followed by memcpy of `caplen` bytes. */
    method CopyBuffer(source: array<byte>, caplen: nat)
      requires caplen <= source.Length && source != pkt_data
      requires pkt_data != null ==> caplen <= pkt_data.Length
      modifies this`pkt_data, this`Repr, pkt_data
      ensures pkt_data != null && caplen <= pkt_data.Length
      ensures pkt_data[..caplen] == source[..caplen]
      ensures if old(pkt_data) == null then fresh(pkt_data) else pkt_data == old(pkt_data)
      ensures Repr == old(Repr) + {pkt_data}
    {
      if pkt_data == null {
        pkt_data := new byte[caplen];
      }
      Repr := Repr + {pkt_data};
      for i := 0 to caplen
        invariant pkt_data != null && caplen <= pkt_data.Length && source != pkt_data
        invariant if old(pkt_data) == null then fresh(pkt_data) else pkt_data == old(pkt_data)
        invariant pkt_data[..i] == source[..i]
        modifies pkt_data
      {
        pkt_data[i] := source[i];
      }
    }

    /** Copies of the bytes and of the header, and the layers of the copy. */
    method Load(h: Header, source: array<byte>)
      requires h.caplen <= source.Length && source != pkt_data && Decodable(source[..h.caplen])
      requires pkt_data != null ==> h.caplen <= pkt_data.Length
      modifies this`pkt_data, this`Repr, this`header, pkt_data,
               this`ethh, this`iph, this`arph, this`icmph, this`udph, this`tcph, this`dnsh, this`dhcph,
               this`httpmsg, this`protocol
      ensures header == Some(h) && pkt_data != null && h.caplen <= pkt_data.Length
      ensures Frame() == old(source[..h.caplen]) && Stack() == IntoEthernet(old(Stack()), Frame())
      ensures if old(pkt_data) == null then fresh(pkt_data) else pkt_data == old(pkt_data)
      ensures Repr == old(Repr) + {pkt_data}
    {
      hide Decodable, IntoEthernet;
      CopyBuffer(source, h.caplen);
      header := Some(h);
      var _ := DecodeEthernet();
    }

    /** The eight pointers that operator= sets to NULL in every case; httpmsg is not among them. */
    method ResetLayers()
      modifies this`ethh, this`iph, this`arph, this`icmph, this`udph, this`tcph, this`dnsh, this`dhcph
      ensures Stack() == NO_LAYERS.(httpmsg := httpmsg, protocol := protocol)
    {
      ethh, iph, arph, icmph, udph, tcph, dnsh, dhcph := None, None, None, None, None, None, None, None;
    }

    /** operator= . The target keeps its buffer if it has one: the caller must know that it is
        large enough. */
    method Assign(p: Packet)
      requires Valid() && p.Valid()
      requires p != this ==> p.Repr !! Repr
      requires p != this && p.header.Some? && pkt_data != null ==> p.header.value.caplen <= pkt_data.Length
      modifies Repr
      ensures Valid() && fresh(Repr - old(Repr))
      ensures View() == if p == this then old(View()) else AssignVal(old(View()), old(p.View()))
    {
      if p == this {
        return;
      }
      ghost var source := p.View();
      ghost var target := View();
      ResetLayers();
      if !p.IsEmpty() {
        num := p.num;
        Load(p.header.value, p.pkt_data);
        assert View() == AssignVal(target, source);
      } else {
        pkt_data := null;
        header := None;
        httpmsg := None;
        num := NO_NUMBER;
      }
    }

    method DecodeEthernet() returns (r: int)
      requires (pkt_data == null <==> header.None?)
      requires header.Some? ==> header.value.caplen <= pkt_data.Length && Decodable(Frame())
      modifies this`ethh, this`iph, this`arph, this`icmph, this`udph, this`tcph, this`dnsh, this`dhcph,
               this`httpmsg, this`protocol
      ensures r == if header.None? then -1 else 0
      ensures Stack() == if header.None? then old(Stack()) else IntoEthernet(old(Stack()), Frame())
    {
      if IsEmpty() {
        return -1;
      }
      ghost var d := Frame();
      protocol := "Ethernet";
      ethh := Some(0);
      var eth_type := pkt_data[12] as int * 256 + pkt_data[13];
      assert eth_type == BE16(d, 12);
      if eth_type == ETHERNET_TYPE_IP {
        var _ := DecodeIP(Some(ETHERNET_HEADER_LENGTH));
      } else if eth_type == ETHERNET_TYPE_ARP {
        var _ := DecodeARP(Some(ETHERNET_HEADER_LENGTH));
      }
      return 0;
    }

    method DecodeIP(L2payload: Option<nat>) returns (r: int)
      requires header.Some? && pkt_data != null && header.value.caplen <= pkt_data.Length
      requires L2payload.Some? ==> DecodableIP(Frame(), L2payload.value)
      modifies this`iph, this`icmph, this`udph, this`tcph, this`dnsh, this`dhcph, this`httpmsg, this`protocol
      ensures r == if L2payload.None? then -1 else 0
      ensures Stack() == if L2payload.None? then old(Stack()) else IntoIP(old(Stack()), Frame(), L2payload.value)
    {
      if L2payload.None? {
        return -1;
      }
      var ip := L2payload.value;
      hide IntoTCP, IntoUDP;
      ghost var d, was := Frame(), Stack();
      protocol := "IPv4";
      iph := L2payload;
      var next := ip + pkt_data[ip] % 16 * 4;
      assert next == ip + IPHeaderLength(d, ip);
      var proto := pkt_data[ip + 9];
      assert proto == d[ip + 9];
      ghost var l1 := was.(protocol := "IPv4", iph := L2payload);
      assert Stack() == l1;
      if proto == PROTOCOL_ICMP {
        var _ := DecodeICMP(Some(next));
      } else if proto == PROTOCOL_TCP {
        var _ := DecodeTCP(Some(next));
      } else if proto == PROTOCOL_UDP {
        var _ := DecodeUDP(Some(next));
      }
      assert Stack() == IntoIP(was, d, ip) && Frame() == d;
      return 0;
    }

    method DecodeARP(L2payload: Option<nat>) returns (r: int)
      modifies this`arph, this`protocol
      ensures r == if L2payload.None? then -1 else 0
      ensures L2payload.None? ==> arph == old(arph) && protocol == old(protocol)
      ensures L2payload.Some? ==> arph == L2payload && protocol == "ARP"
    {
      if L2payload.None? {
        return -1;
      }
      protocol := "ARP";
      arph := L2payload;
      return 0;
    }

    method DecodeICMP(L3payload: Option<nat>) returns (r: int)
      modifies this`icmph, this`protocol
      ensures r == if L3payload.None? then -1 else 0
      ensures L3payload.None? ==> icmph == old(icmph) && protocol == old(protocol)
      ensures L3payload.Some? ==> icmph == L3payload && protocol == "ICMP"
    {
      if L3payload.None? {
        return -1;
      }
      protocol := "ICMP";
      icmph := L3payload;
      return 0;
    }

    method DecodeTCP(L3payload: Option<nat>) returns (r: int)
      requires header.Some? && pkt_data != null && header.value.caplen <= pkt_data.Length
      requires L3payload.Some? ==> L3payload.value + 14 <= |Frame()|
      requires iph.Some? ==> iph.value + 10 <= |Frame()|
      modifies this`tcph, this`dnsh, this`httpmsg, this`protocol
      ensures r == if L3payload.None? then -1 else 0
      ensures Stack() == if L3payload.None? then old(Stack()) else IntoTCP(old(Stack()), Frame(), L3payload.value)
    {
      if L3payload.None? {
        return -1;
      }
      var tcp := L3payload.value;
      ghost var d, was := Frame(), Stack();
      protocol := "TCP";
      tcph := L3payload;
      ghost var l1 := was.(protocol := "TCP", tcph := L3payload);
      assert Stack() == l1;
      var headerLen := (pkt_data[tcp + 12] as int * 256 + pkt_data[tcp + 13]) / 4096 * 4;
      var srcport := pkt_data[tcp] as int * 256 + pkt_data[tcp + 1];
      var dstport := pkt_data[tcp + 2] as int * 256 + pkt_data[tcp + 3];
      assert headerLen == TCPHeaderLength(d, tcp) && srcport == BE16(d, tcp) && dstport == BE16(d, tcp + 2);
      ghost var l2 := IntoTCP(was, d, tcp);
      if srcport == PORT_DNS || dstport == PORT_DNS {
        assert l2 == l1.(protocol := "DNS", dnsh := Some(tcp + headerLen));
        var _ := DecodeDNS(Some(tcp + headerLen));
      } else if srcport == PORT_HTTP || dstport == PORT_HTTP {
        var HTTPMsgLen := GetL4PayloadLength();
        assert HTTPMsgLen == L4PayloadLength(l1, d);
        if HTTPMsgLen > 0 {
          assert l2 == l1.(protocol := "HTTP", httpmsg := Some(tcp + headerLen));
          var _ := DecodeHTTP(Some(tcp + headerLen));
        }
      }
      assert Stack() == l2 && Frame() == d;
      return 0;
    }

    method DecodeUDP(L3payload: Option<nat>) returns (r: int)
      requires header.Some? && pkt_data != null && header.value.caplen <= pkt_data.Length
      requires L3payload.Some? ==> L3payload.value + 4 <= |Frame()|
      modifies this`udph, this`dnsh, this`dhcph, this`protocol
      ensures r == if L3payload.None? then -1 else 0
      ensures Stack() == if L3payload.None? then old(Stack()) else IntoUDP(old(Stack()), Frame(), L3payload.value)
    {
      if L3payload.None? {
        return -1;
      }
      var udp := L3payload.value;
      ghost var d := Frame();
      protocol := "UDP";
      udph := L3payload;
      var srcport := pkt_data[udp] as int * 256 + pkt_data[udp + 1];
      var dstport := pkt_data[udp + 2] as int * 256 + pkt_data[udp + 3];
      assert srcport == BE16(d, udp) && dstport == BE16(d, udp + 2);
      if srcport == PORT_DNS || dstport == PORT_DNS {
        var _ := DecodeDNS(Some(udp + UDP_HEADER_LENGTH));
      } else if (srcport == PORT_DHCP_CLIENT && dstport == PORT_DHCP_SERVER)
             || (srcport == PORT_DHCP_SERVER && dstport == PORT_DHCP_CLIENT) {
        var _ := DecodeDHCP(Some(udp + UDP_HEADER_LENGTH));
      }
      return 0;
    }

    method DecodeDNS(L4payload: Option<nat>) returns (r: int)
      modifies this`dnsh, this`protocol
      ensures r == if L4payload.None? then -1 else 0
      ensures L4payload.None? ==> dnsh == old(dnsh) && protocol == old(protocol)
      ensures L4payload.Some? ==> dnsh == L4payload && protocol == "DNS"
    {
      if L4payload.None? {
        return -1;
      }
      protocol := "DNS";
      dnsh := L4payload;
      return 0;
    }

    method DecodeDHCP(L4payload: Option<nat>) returns (r: int)
      modifies this`dhcph, this`protocol
      ensures r == if L4payload.None? then -1 else 0
      ensures L4payload.None? ==> dhcph == old(dhcph) && protocol == old(protocol)
      ensures L4payload.Some? ==> dhcph == L4payload && protocol == "DHCP"
    {
      if L4payload.None? {
        return -1;
      }
      protocol := "DHCP";
      dhcph := L4payload;
      return 0;
    }

    method DecodeHTTP(L4payload: Option<nat>) returns (r: int)
      modifies this`httpmsg, this`protocol
      ensures r == if L4payload.None? then -1 else 0
      ensures L4payload.None? ==> httpmsg == old(httpmsg) && protocol == old(protocol)
      ensures L4payload.Some? ==> httpmsg == L4payload && protocol == "HTTP"
    {
      if L4payload.None? {
        return -1;
      }
      protocol := "HTTP";
      httpmsg := L4payload;
      return 0;
    }

    method GetL4PayloadLength() returns (n: int)
      requires header.Some? && pkt_data != null && header.value.caplen <= pkt_data.Length
      requires InFrame(Stack(), Frame())
      ensures n == L4PayloadLength(Stack(), Frame())
    {
      if iph.None? || tcph.None? {
        return 0;
      }
      var ip, tcp := iph.value, tcph.value;
      var IPTotalLen := pkt_data[ip + 2] as int * 256 + pkt_data[ip + 3];
      var IPHeaderLen := pkt_data[ip] % 16 * 4;
      var TCPHeaderLen := (pkt_data[tcp + 12] as int * 256 + pkt_data[tcp + 13]) / 4096 * 4;
      ghost var d := Frame();
      assert IPTotalLen == BE16(d, ip + 2) && IPHeaderLen == IPHeaderLength(d, ip)
          && TCPHeaderLen == TCPHeaderLength(d, tcp);
      return IPTotalLen - IPHeaderLen - TCPHeaderLen;
    }
  }
}
