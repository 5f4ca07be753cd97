/** Packets and packet pools as values: what the classes of Packet.cpp and PacketPool.cpp compute. */
module PacketModel {
  import opened Bytes
  import opened Decode

  /** struct pcap_pkthdr */
  datatype Header = Header(sec: nat, usec: nat, caplen: nat, len: nat)

  /** One captured frame: its capture header and the captured bytes. */
  datatype Capture = Capture(header: Header, bytes: seq<byte>)

  predicate WellCaptured(c: Capture) {
    c.header.caplen == |c.bytes| && Decodable(c.bytes)
  }

  type Frame = c: Capture | WellCaptured(c)
    witness Capture(Header(0, 0, 14, 14), [0, 0, 0, 0, 0, 0, 0, 0, 0, 0, 0, 0, 0, 0])

  /** `content` is absent when pkt_data or header is NULL. */
  datatype PacketVal = PacketVal(num: nat, content: Option<Capture>, layers: Layers)

  /** (u_short)-1 */
  const NO_NUMBER: nat := 65535

  const EMPTY_PACKET := PacketVal(NO_NUMBER, None, NO_LAYERS)

  /** A frame decoded straight from the capture. */
  function Direct(c: Frame, num: nat): PacketVal {
    PacketVal(num, Some(c), Layer(c.bytes))
  }

  /** The number field is a u_short. */
  function Num(k: nat): nat { k % 65536 }

  /** operator= between two different packets. It never resets httpmsg for a non-empty source,
      and never resets the protocol label for an empty one. */
  function AssignVal(target: PacketVal, source: PacketVal): PacketVal
    requires source.content.Some? ==> Decodable(source.content.value.bytes)
  {
    match source.content
    case None => PacketVal(NO_NUMBER, None, NO_LAYERS.(protocol := target.layers.protocol))
    case Some(c) =>
      var kept := NO_LAYERS.(httpmsg := target.layers.httpmsg, protocol := target.layers.protocol);
      PacketVal(source.num, source.content, IntoEthernet(kept, c.bytes))
  }

  /** The layers of `d`, but with `stale` for an HTTP pointer that `d` itself does not set. */
  function LayerOver(d: seq<byte>, stale: Option<nat>): Layers
    requires Decodable(d)
  {
    Layer(d).(httpmsg := if Layer(d).httpmsg.Some? then Layer(d).httpmsg else stale)
  }

  /** What constructors and assignments leave in a packet. */
  predicate Built(p: PacketVal) {
    match p.content
    case None => p.layers == NO_LAYERS.(protocol := p.layers.protocol)
    case Some(c) => Decodable(c.bytes) && p.layers == LayerOver(c.bytes, p.layers.httpmsg)
  }

  /** Constructors and assignments leave nothing else. */
  lemma AssignBuilds(target: PacketVal, source: PacketVal)
    requires source.content.Some? ==> Decodable(source.content.value.bytes)
    ensures Built(AssignVal(target, source)) && Built(EMPTY_PACKET)
    ensures forall c: Frame, num :: Built(Direct(c, num))
  {
    hide Layer, Decodable;
    if source.content.Some? {
      StaleHttp(target.layers.httpmsg, target.layers.protocol, source.content.value.bytes);
    }
  }

  /** Assignment yields a true copy exactly when: for an empty source, it has the empty packet's number and
      the target's label; for a decoded one, it sets its own HTTP pointer, or it agrees with the target's,
      which for a direct decode means that the target holds none. */
  lemma AssignCopiesIff(target: PacketVal, source: PacketVal)
    requires Built(source)
    ensures AssignVal(target, source) == source <==>
      match source.content
      case None => source.num == NO_NUMBER && source.layers.protocol == target.layers.protocol
      case Some(c) => Layer(c.bytes).httpmsg.Some? || source.layers.httpmsg == target.layers.httpmsg
  {
    hide Layer;
    if source.content.Some? {
      StaleHttp(target.layers.httpmsg, target.layers.protocol, source.content.value.bytes);
    }
  }

  /** An empty packet: no bytes, number 65535, no label, no layer. */
  lemma EmptyIs()
    ensures EMPTY_PACKET.content.None? && EMPTY_PACKET.num == 65535 && EMPTY_PACKET.layers.protocol == ""
    ensures var l := EMPTY_PACKET.layers;
      && l.ethh.None? && l.iph.None? && l.arph.None? && l.icmph.None? && l.udph.None? && l.tcph.None?
      && l.dnsh.None? && l.dhcph.None? && l.httpmsg.None?
  {
  }

  /** What assignment takes from where: bytes, capture header and number from the source, the layers from
      its bytes, the label of an empty packet and a stale HTTP pointer from the target. */
  lemma AssignIs(target: PacketVal, source: PacketVal)
    requires source.content.Some? ==> Decodable(source.content.value.bytes)
    ensures var r, l := AssignVal(target, source), AssignVal(target, source).layers;
      && r.content == source.content
      && match source.content
         case None =>
           && r.num == 65535 && l.protocol == target.layers.protocol
           && l.ethh.None? && l.iph.None? && l.arph.None? && l.icmph.None? && l.udph.None? && l.tcph.None?
           && l.dnsh.None? && l.dhcph.None? && l.httpmsg.None?
         case Some(c) =>
           && r.num == source.num && l.(httpmsg := None) == Layer(c.bytes).(httpmsg := None)
           && l.httpmsg == if Layer(c.bytes).httpmsg.Some? then Layer(c.bytes).httpmsg else target.layers.httpmsg
  {
    hide Layer;
    if source.content.Some? {
      StaleHttp(target.layers.httpmsg, target.layers.protocol, source.content.value.bytes);
    }
  }

  /** A frame of 14 bytes that carries ARP. */
  function ArpSample(): (c: Frame)
    ensures Layer(c.bytes) == NO_LAYERS.(protocol := "ARP", ethh := Some(0), arph := Some(14))
  {
    Capture(Header(0, 0, 14, 14), [0, 0, 0, 0, 0, 0, 0, 0, 0, 0, 0, 0, 8, 6])
  }

  /** Ethernet, IP of total length 41, TCP to port 80 and one byte of payload. */
  predicate HttpBytes(d: seq<byte>) {
    && |d| == 55 && BE16(d, 12) == ETHERNET_TYPE_IP && d[14] == 69 && BE16(d, 16) == 41 && d[23] == PROTOCOL_TCP
    && BE16(d, 34) == 0 && BE16(d, 36) == PORT_HTTP && BE16(d, 46) == 0x5000
  }

  lemma HttpLayer(d: seq<byte>)
    requires HttpBytes(d)
    ensures Decodable(d) && Layer(d).httpmsg == Some(54)
  {
    assert IPHeaderLength(d, 14) == 20 && TCPHeaderLength(d, 34) == 20;
  }

  function HttpSample(): (c: Frame)
    ensures Layer(c.bytes).httpmsg == Some(54)
  {
    var d: seq<byte> := seq(55, i requires 0 <= i < 55 =>
      if i == 12 then 8 else if i == 14 then 69 else if i == 17 then 41 else if i == 23 then 6
      else if i == 37 || i == 46 then 80 else 0);
    HttpLayer(d);
    Capture(Header(0, 0, 55, 55), d)
  }

  /** Assigning the ARP packet to the HTTP packet: the result still points at byte 54 of a frame of 14. */
  lemma StaleAssignment()
    ensures AssignVal(Direct(HttpSample(), 1), Direct(ArpSample(), 2)).layers.httpmsg == Some(54)
    ensures AssignVal(Direct(HttpSample(), 1), Direct(ArpSample(), 2)) != Direct(ArpSample(), 2)
  {
    hide HttpSample, ArpSample;
    AssignCopiesIff(Direct(HttpSample(), 1), Direct(ArpSample(), 2));
    StaleHttp(Some(54), Direct(HttpSample(), 1).layers.protocol, ArpSample().bytes);
  }

  /** Assigning an empty packet to the ARP packet: the result is empty but still labelled ARP. */
  lemma LabelKept()
    ensures AssignVal(Direct(ArpSample(), 1), EMPTY_PACKET).content.None?
    ensures AssignVal(Direct(ArpSample(), 1), EMPTY_PACKET).layers.protocol == "ARP" != EMPTY_PACKET.layers.protocol
  {
  }

  // ---------------------------------------------------------------- pools

  type Pool = map<int, PacketVal>

  /** std::map operator[] on a missing key, and get() of a missing number, give an empty packet. */
  function Entry(pool: Pool, k: int): PacketVal {
    if k in pool then pool[k] else EMPTY_PACKET
  }

  function LastEntry(pool: Pool): PacketVal {
    Entry(pool, |pool|)
  }

  function AddCapture(pool: Pool, c: Frame): Pool {
    var k := 1 + |pool|;
    pool[k := AssignVal(Entry(pool, k), Direct(c, Num(k)))]
  }

  function AddPacket(pool: Pool, p: PacketVal): Pool
    requires p.content.Some? ==> Decodable(p.content.value.bytes)
  {
    if p.content.None? then pool else pool[p.num := AssignVal(Entry(pool, p.num), p)]
  }

  function Remove(pool: Pool, k: int): Pool {
    if k < 1 || k > |pool| then pool else pool - {k}
  }

  /** The keys are exactly 1..n. */
  ghost predicate Dense<V>(pool: map<int, V>) {
    forall k :: k in pool <==> 1 <= k <= |pool|
  }

  lemma PutKeepsDenseIff<V>(pool: map<int, V>, k: int, v: V)
    requires Dense(pool)
    ensures Dense(pool[k := v]) <==> 1 <= k <= |pool| + 1
    ensures k == |pool| + 1 ==> |pool[k := v]| == |pool| + 1
  {
    var r := pool[k := v];
    assert k in r;
    if k !in pool {
      assert |r| == |pool| + 1;
    }
  }

  lemma DropKeepsDenseIff<V>(pool: map<int, V>, k: int)
    requires Dense(pool) && 1 <= k <= |pool|
    ensures Dense(pool - {k}) <==> k == |pool|
  {
    var r := pool - {k};
    assert pool.Keys == r.Keys + {k};
    assert |r| == |r.Keys| && |pool| == |pool.Keys|;
    if k < |pool| {
      assert |pool| in r;
    }
  }

  /** Frames added in order to an empty pool. */
  function PoolOf(frames: seq<Frame>): Pool {
    if frames == [] then map[] else AddCapture(PoolOf(frames[..|frames| - 1]), frames[|frames| - 1])
  }

  lemma PoolOfSnoc(frames: seq<Frame>, c: Frame)
    ensures PoolOf(frames + [c]) == AddCapture(PoolOf(frames), c)
  {
    assert (frames + [c])[..|frames|] == frames;
  }

  /** The pool is dense, in capture order, and every entry is a full copy of a direct decode:
      `operator=` only ever meets a fresh packet. */
  lemma {:induction false} PoolOfIsDirect(frames: seq<Frame>)
    ensures |PoolOf(frames)| == |frames| && Dense(PoolOf(frames))
    ensures forall i :: 1 <= i <= |frames| ==> Entry(PoolOf(frames), i) == Direct(frames[i - 1], Num(i))
    ensures frames != [] ==> LastEntry(PoolOf(frames)) == Direct(frames[|frames| - 1], Num(|frames|))
  {
    hide Layer, AssignVal, Num;
    if frames != [] {
      var init, c := frames[..|frames| - 1], frames[|frames| - 1];
      PoolOfIsDirect(init);
      AssignCopiesIff(EMPTY_PACKET, Direct(c, Num(|frames|)));
      assert Entry(PoolOf(init), |frames|) == EMPTY_PACKET;
      PutKeepsDenseIff(PoolOf(init), |frames|, Direct(c, Num(|frames|)));
      forall i | 1 <= i <= |frames|
        ensures Entry(PoolOf(frames), i) == Direct(frames[i - 1], Num(i))
      {
        if i < |frames| {
          assert Entry(PoolOf(init), i) == Direct(init[i - 1], Num(i));
        }
      }
    }
  }

  /** In bytes and numbers: the i-th entry holds the i-th frame, every byte of it and its capture header
      with time and lengths, and the number i mod 65536; its layers are those of the whole frame. */
  lemma PoolOfIs(frames: seq<Frame>, i: nat)
    requires 1 <= i <= |frames|
    ensures var p, c := Entry(PoolOf(frames), i), frames[i - 1];
      && p.content.Some? && p.content.value.bytes == c.bytes && |p.content.value.bytes| == c.header.caplen
      && p.content.value.header.sec == c.header.sec && p.content.value.header.usec == c.header.usec
      && p.content.value.header.caplen == c.header.caplen && p.content.value.header.len == c.header.len
      && p.num == i % 65536 && p.layers == Layer(c.bytes)
  {
    PoolOfIsDirect(frames);
  }

  /** A number that is not in the pool gives the empty packet. */
  lemma UnknownNumber(pool: Pool, k: int)
    requires k !in pool
    ensures Entry(pool, k) == EMPTY_PACKET
  {
  }

  lemma PoolSize(frames: seq<Frame>)
    ensures |PoolOf(frames)| == |frames|
  {
    PoolOfIsDirect(frames);
  }

  /** What happens to the one pool of the program over time. */
  datatype PoolOp = Add(c: Frame) | Clear

  function RunOps(ops: seq<PoolOp>): Pool {
    if ops == [] then map[]
    else
      var before := RunOps(ops[..|ops| - 1]);
      match ops[|ops| - 1]
      case Add(c) => AddCapture(before, c)
      case Clear => map[]
  }

  /** The frames added since the last clear. */
  function SinceClear(ops: seq<PoolOp>): seq<Frame> {
    if ops == [] then []
    else
      match ops[|ops| - 1]
      case Add(c) => SinceClear(ops[..|ops| - 1]) + [c]
      case Clear => []
  }

  lemma {:induction false} PoolOfRun(ops: seq<PoolOp>)
    ensures RunOps(ops) == PoolOf(SinceClear(ops))
    ensures Dense(RunOps(ops)) && |RunOps(ops)| == |SinceClear(ops)|
    ensures forall i :: 1 <= i <= |RunOps(ops)| ==> Entry(RunOps(ops), i) == Direct(SinceClear(ops)[i - 1], Num(i))
  {
    if ops != [] {
      var before := ops[..|ops| - 1];
      PoolOfRun(before);
      match ops[|ops| - 1] {
        case Add(c) => PoolOfSnoc(SinceClear(before), c);
        case Clear =>
      }
    }
    PoolOfIsDirect(SinceClear(ops));
  }

  /** remove(k) takes away the packet k and nothing else, and nothing at all if k is out of range. */
  lemma RemoveIs(pool: Pool, k: int, j: int)
    ensures j in Remove(pool, k) <==> j in pool && !(j == k && 1 <= k <= |pool|)
    ensures j in Remove(pool, k) ==> Remove(pool, k)[j] == pool[j]
  {
  }

  /** add(pkt) puts bytes, header and number of the packet under its number and changes no other entry; an
      empty packet changes nothing. */
  lemma AddPacketIs(pool: Pool, p: PacketVal, j: int)
    requires p.content.Some? ==> Decodable(p.content.value.bytes)
    ensures j != p.num || p.content.None? ==> Entry(AddPacket(pool, p), j) == Entry(pool, j)
    ensures j == p.num && p.content.Some? ==>
      && j in AddPacket(pool, p)
      && AddPacket(pool, p)[j].content == p.content && AddPacket(pool, p)[j].num == p.num
      && AddPacket(pool, p)[j].layers.(httpmsg := None) == Layer(p.content.value.bytes).(httpmsg := None)
      && AddPacket(pool, p)[j].layers.httpmsg ==
           (if Layer(p.content.value.bytes).httpmsg.Some? then Layer(p.content.value.bytes).httpmsg
            else Entry(pool, j).layers.httpmsg)
  {
    hide Layer, AssignVal, Decodable;
    AssignIs(Entry(pool, p.num), p);
  }

  lemma RemoveKeepsDenseIff(pool: Pool, k: int)
    requires Dense(pool)
    ensures Dense(Remove(pool, k)) <==> (k < 1 || k >= |pool|)
  {
    if 1 <= k <= |pool| {
      DropKeepsDenseIff(pool, k);
    }
  }

  lemma AddPacketKeepsDenseIff(pool: Pool, p: PacketVal)
    requires Dense(pool) && p.content.Some? && Decodable(p.content.value.bytes)
    ensures Dense(AddPacket(pool, p)) <==> 1 <= p.num <= |pool| + 1
  {
    hide AssignVal;
    PutKeepsDenseIff(pool, p.num, AssignVal(Entry(pool, p.num), p));
  }

  /** The number a stored packet carries tells its place exactly up to 65535 packets. */
  lemma NumberIsPlaceIff(frames: seq<Frame>)
    ensures (forall i :: 1 <= i <= |frames| ==> Entry(PoolOf(frames), i).num == i) <==> |frames| < 65536
  {
    hide PoolOf;
    PoolOfIsDirect(frames);
    forall i | 1 <= i <= |frames|
      ensures Entry(PoolOf(frames), i).num == Num(i)
    {
    }
    if |frames| >= 65536 {
      assert Num(65536) == 0;
    }
  }
}
