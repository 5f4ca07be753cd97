/** The PacketPool class: a std::map from packet numbers to Packet objects, each owning its buffers.
    `contents` is the pool as a value; every method computes the PacketModel function of the same name. */
module PacketPool {
  import opened Bytes
  import opened Decode
  import opened PacketModel
  import opened PacketObject

  class PacketPool {
    var pkts: map<int, Packet>

    ghost var contents: Pool
    ghost var Repr: set<object>

    ghost predicate Valid()
      reads this, Repr
    {
      && this in Repr
      && contents.Keys == pkts.Keys
      && (forall k :: k in pkts ==> Holds(pkts[k], contents[k]))
      && (forall i, j :: i in pkts && j in pkts && i != j ==> pkts[i].Repr !! pkts[j].Repr)
    }

    /** Packet `p`, with buffers of its own, stores the value `v`. */
    ghost predicate Holds(p: Packet, v: PacketVal)
      reads this, Repr
    {
      p in Repr && p.Repr <= Repr && this !in p.Repr && p.Valid() && p.View() == v
    }

    constructor ()
      ensures Valid() && fresh(Repr) && contents == map[]
    {
      pkts, contents, Repr := map[], map[], {this};
    }

    /** m_pkts[k]: a missing key is first given an empty packet. */
    method Index(k: int) returns (p: Packet)
      requires Valid()
      modifies this
      ensures Valid() && fresh(Repr - old(Repr)) && k in pkts && p == pkts[k]
      ensures if k in old(pkts) then pkts == old(pkts) else fresh(p.Repr) && p.pkt_data == null
      ensures contents == old(contents)[k := Entry(old(contents), k)]
    {
      if k in pkts {
        return pkts[k];
      }
      p := new Packet();
      pkts := pkts[k := p];
      contents := contents[k := EMPTY_PACKET];
      Repr := Repr + p.Repr;
    }

    /** The packet has buffers of its own, or is itself one of the stored packets. */
    ghost predicate Apart(pkt: Packet)
      reads this, pkt
    {
      pkt.Repr !! Repr || exists k :: k in pkts && pkts[k] == pkt
    }

    /** The buffer already stored under `k`, if there is one, is large enough. */
    ghost predicate Fits(k: int, h: Option<Header>)
      requires Valid()
      reads this, Repr
    {
      k in pkts && pkts[k].pkt_data != null && h.Some? ==> h.value.caplen <= pkts[k].pkt_data.Length
    }

    /** Assignment to one stored packet leaves all the others alone. */
    method AssignAt(k: int, p: Packet, pkt: Packet)
      requires Valid() && k in pkts && p == pkts[k] && pkt.Valid()
      requires pkt == p || (pkt.Repr !! p.Repr && Fits(k, pkt.header))
      modifies this`contents, this`Repr, p.Repr
      ensures Valid() && fresh(Repr - old(Repr))
      ensures contents ==
        if pkt == p then old(contents) else old(contents)[k := AssignVal(old(contents[k]), old(pkt.View()))]
    {
      hide AssignVal;
      p.Assign(pkt);
      contents := contents[k := p.View()];
      Repr := Repr + p.Repr;
    }

    /** m_pkts[k] = pkt */
    method Store(k: int, pkt: Packet)
      requires Valid() && pkt.Valid() && Apart(pkt)
      requires Fits(k, pkt.header)
      modifies Repr
      ensures Valid() && fresh(Repr - old(Repr))
      ensures contents ==
        if k in old(pkts) && pkt == old(pkts)[k] then old(contents)
        else old(contents)[k := AssignVal(Entry(old(contents), k), old(pkt.View()))]
    {
      hide AssignVal, Entry, Packet.View;
      ghost var source, mine := pkt.View(), k in pkts && pkts[k] == pkt;
      assert this !in pkt.Repr && (pkt.Repr !! Repr ==> pkt !in Repr) by {
        assert pkt in pkt.Repr;
      }
      assert k in pkts && !mine ==> pkts[k] != pkt && pkts[k].Repr !! pkt.Repr;
      var p := Index(k);
      assert pkt.Valid() && pkt.View() == source;
      assert mine <==> pkt == p;
      AssignAt(k, p, pkt);
    }

    /** add(header, pkt_data). In a dense pool the new number is free, so that `operator=` meets a
        packet without a buffer; otherwise the caller must know that the old buffer is large enough. */
    method Add(h: Option<Header>, data: array?<byte>)
      requires Valid() && (Dense(contents) || Fits(1 + |pkts|, h))
      requires h.Some? && data != null ==> h.value.caplen <= data.Length && Decodable(data[..h.value.caplen])
      modifies Repr
      ensures Valid() && fresh(Repr - old(Repr))
      ensures contents ==
        if h.Some? && data != null then AddCapture(old(contents), Capture(h.value, old(data[..h.value.caplen])))
        else old(contents)
      ensures Dense(old(contents)) ==> Dense(contents)
    {
      hide AssignVal;
      assert |pkts| == |pkts.Keys| == |contents|;
      if h.Some? && data != null {
        var pktNum := 1 + |pkts|;
        ghost var frame: Frame := Capture(h.value, data[..h.value.caplen]);
        PutKeepsDense(contents, AssignVal(Entry(contents, pktNum), Direct(frame, Num(pktNum))));
        var pkt := new Packet.FromCapture(h, data, pktNum);
        Store(pktNum, pkt);
      }
    }

    /** add(pkt) */
    method AddPacket(pkt: Packet)
      requires Valid() && pkt.Valid() && Apart(pkt)
      requires Fits(pkt.num, pkt.header)
      modifies Repr
      ensures Valid() && fresh(Repr - old(Repr))
      ensures contents ==
        if old(pkt.num in pkts && pkts[pkt.num] == pkt) then old(contents)
        else PacketModel.AddPacket(old(contents), old(pkt.View()))
    {
      if !pkt.IsEmpty() {
        Store(pkt.num, pkt);
      }
    }

    /** remove(pktNum) */
    method Remove(pktNum: int)
      requires Valid()
      modifies this
      ensures Valid() && Repr == old(Repr) && contents == PacketModel.Remove(old(contents), pktNum)
    {
      assert |pkts| == |pkts.Keys| == |contents|;
      if pktNum < 1 || pktNum > |pkts| {
        return;
      }
      pkts, contents := pkts - {pktNum}, contents - {pktNum};
    }

    method Clear()
      requires Valid()
      modifies this
      ensures Valid() && Repr == old(Repr) && contents == map[]
    {
      if |pkts| > 0 {
        pkts, contents := map[], map[];
      }
    }

    /** get(pktNum): a temporary empty packet when the number is unknown. */
    method Get(pktNum: int) returns (p: Packet)
      requires Valid()
      ensures p.Valid() && p.View() == PacketModel.Entry(contents, pktNum)
      ensures if pktNum in pkts then p == pkts[pktNum] else fresh(p)
    {
      if pktNum in pkts {
        return pkts[pktNum];
      }
      p := new Packet();
    }

    method GetLast() returns (p: Packet)
      requires Valid()
      ensures p.Valid() && p.View() == PacketModel.LastEntry(contents)
      ensures if |pkts| in pkts then p == pkts[|pkts|] else fresh(p)
    {
      if |pkts| in pkts {
        return pkts[|pkts|];
      }
      p := new Packet();
    }

    method GetSize() returns (n: nat)
      requires Valid()
      ensures n == |contents|
    {
      assert |pkts| == |pkts.Keys| == |contents|;
      return |pkts|;
    }

    method IsEmpty() returns (b: bool)
      requires Valid()
      ensures b <==> contents == map[]
    {
      return |pkts| == 0;
    }

    /** The whole life of one pool object: whatever is added and cleared, in any order, every
        assignment meets a fresh packet, and the entries are the direct decodes of the frames added
        since the last clear. */
    method Perform(ops: seq<PoolOp>)
      requires Valid() && contents == map[]
      modifies Repr
      ensures Valid() && fresh(Repr - old(Repr))
      ensures contents == RunOps(ops) && Dense(contents) && |contents| == |SinceClear(ops)|
      ensures forall i :: 1 <= i <= |contents| ==> Entry(contents, i) == Direct(SinceClear(ops)[i - 1], Num(i))
    {
      hide AddCapture, Direct, Entry;
      for i := 0 to |ops|
        invariant Valid() && fresh(Repr - old(Repr))
        invariant contents == RunOps(ops[..i]) && Dense(contents)
      {
        assert ops[..i + 1][..i] == ops[..i];
        match ops[i] {
          case Add(c) =>
            var bytes := c.bytes;
            var data := new byte[|bytes|](k requires 0 <= k < |bytes| => bytes[k]);
            assert data[..c.header.caplen] == bytes;
            Add(Some(c.header), data);
          case Clear =>
            Clear();
        }
      }
      assert ops[..|ops|] == ops;
      PoolOfRun(ops);
    }
  }

  lemma PutKeepsDense(pool: Pool, v: PacketVal)
    ensures Dense(pool) ==> 1 + |pool| !in pool && Dense(pool[1 + |pool| := v])
  {
    if Dense(pool) {
      PutKeepsDenseIff(pool, 1 + |pool|, v);
    }
  }
}
