/** The packet list control: rows appended one captured packet at a time, and the two full redraws. */
module PacketList {
  import opened Bytes
  import opened Decode
  import opened PacketModel
  import P = PacketPool

  /** A row shows one packet and keeps a pointer into the pool entry `owner` for its colour. */
  datatype Row = Row(packet: PacketVal, owner: int)

  /** The entries of the filter list, after the "Select filter" entry at index 0. */
  const FILTERS: seq<string> := ["Ethernet", "IP", "ARP", "ICMP", "TCP", "UDP", "DNS", "DHCP", "HTTP"]

  type Selection = s: nat | s <= 9

  /** Selection 0 lets every packet through. */
  predicate Selected(sel: Selection, p: PacketVal) {
    sel == 0 || FILTERS[sel - 1] == p.layers.protocol
  }

  /** An IP frame with the given protocol number. */
  predicate Carries(d: seq<byte>, number: nat)
    requires Decodable(d)
  {
    Word16(d, 12) == 0x0800 && d[23] == number
  }

  /** One of the two ports of a TCP or UDP frame is `a`. */
  predicate Port(d: seq<byte>, a: nat)
    requires Decodable(d) && (Carries(d, 6) || Carries(d, 17))
  {
    Word16(d, Transport(d)) == a || Word16(d, Transport(d) + 2) == a
  }

  /** The two ports are `a` and `b`, in either order. */
  predicate PortPair(d: seq<byte>, a: nat, b: nat)
    requires Decodable(d) && (Carries(d, 6) || Carries(d, 17))
  {
    || (Word16(d, Transport(d)) == a && Word16(d, Transport(d) + 2) == b)
    || (Word16(d, Transport(d)) == b && Word16(d, Transport(d) + 2) == a)
  }

  /** The IP total length leaves room for a TCP payload. */
  predicate HasPayload(d: seq<byte>)
    requires Decodable(d) && Carries(d, 6)
  {
    TCPIs(d);
    Word16(d, 16) > 4 * (d[14] % 16) + 4 * (d[Transport(d) + 12] / 16)
  }

  /** What each entry of the filter list selects, by type, protocol number and ports. Each selects the frames of
      its own layer that carry nothing the analyser knows inside, and "IP" selects none. */
  lemma FilterSelects(c: Frame, num: nat)
    ensures var d, p := c.bytes, Direct(c, num);
      var tcp, udp := Carries(d, 6), Carries(d, 17);
      && Selected(0, p)
      && (Selected(1, p) <==> Word16(d, 12) != 0x0800 && Word16(d, 12) != 0x0806)
      && !Selected(2, p)
      && (Selected(3, p) <==> Word16(d, 12) == 0x0806)
      && (Selected(4, p) <==> Carries(d, 1))
      && (Selected(5, p) <==> tcp && !Port(d, 53) && !(Port(d, 80) && HasPayload(d)))
      && (Selected(6, p) <==> udp && !Port(d, 53) && !PortPair(d, 67, 68))
      && (Selected(7, p) <==> (tcp || udp) && Port(d, 53))
      && (Selected(8, p) <==> udp && !Port(d, 53) && PortPair(d, 67, 68))
      && (Selected(9, p) <==> tcp && !Port(d, 53) && Port(d, 80) && HasPayload(d))
  {
    hide Layer, Decodable;
    var d := c.bytes;
    LabelsDiffer();
    EthernetIs(d);
    if Word16(d, 12) == 0x0800 {
      IPIs(d);
      if d[23] == 6 {
        TCPIs(d);
      } else if d[23] == 17 {
        UDPIs(d);
      }
    }
  }

  lemma LabelsDiffer()
    ensures var n := ["Ethernet", "IP", "ARP", "ICMP", "TCP", "UDP", "DNS", "DHCP", "HTTP", "IPv4"];
      forall i, j :: 0 <= i < j < 10 ==> n[i] != n[j]
  {
    var n := ["Ethernet", "IP", "ARP", "ICMP", "TCP", "UDP", "DNS", "DHCP", "HTTP", "IPv4"];
    assert forall i, j :: 0 <= i < j < 10 ==> |n[i]| != |n[j]| || n[i][0] != n[j][0] || n[i][1] != n[j][1];
  }

  /** printListCtrlPacketList(pkt): an empty packet adds no row. */
  function Show(rows: seq<Row>, p: PacketVal, owner: int): seq<Row> {
    if p.content.None? then rows else rows + [Row(p, owner)]
  }

  /** What a WM_PKTCATCH message carrying `num` does to the list. */
  function ShowMessage(rows: seq<Row>, pool: Pool, sel: Selection, num: nat): seq<Row> {
    if num > 0 && Selected(sel, Entry(pool, num)) then Show(rows, Entry(pool, num), num) else rows
  }

  /** The list after the first `d` packet messages of a session, handled one at a time. */
  function RowsOf(frames: seq<Frame>, sel: Selection, d: nat): seq<Row> {
    if d == 0 then [] else ShowMessage(RowsOf(frames, sel, d - 1), PoolOf(frames), sel, Num(d))
  }

  /** The first `n` captured packets that match the selection, in capture order. */
  function Matching(frames: seq<Frame>, sel: Selection, n: nat): seq<Row>
    requires n <= |frames|
  {
    if n == 0 then []
    else
      var p := Direct(frames[n - 1], Num(n));
      Matching(frames, sel, n - 1) + if Selected(sel, p) then [Row(p, n)] else []
  }

  /** A message for packet `k` shows exactly the k-th captured frame, if it is selected. */
  lemma MessageShows(rows: seq<Row>, frames: seq<Frame>, sel: Selection, k: nat)
    requires k <= |frames|
    ensures k == 0 ==> ShowMessage(rows, PoolOf(frames), sel, k) == rows
    ensures k > 0 ==>
      var p := Direct(frames[k - 1], Num(k));
      ShowMessage(rows, PoolOf(frames), sel, k) == if Selected(sel, p) then rows + [Row(p, k)] else rows
  {
    hide PoolOf, Layer, Selected;
    PoolOfIsDirect(frames);
    if k > 0 {
      assert Entry(PoolOf(frames), k) == Direct(frames[k - 1], Num(k));
    }
  }

  /** A message for a packet that is not in the pool any more shows nothing, whatever the filter. */
  lemma NothingToShow(rows: seq<Row>, pool: Pool, sel: Selection, num: nat)
    requires num !in pool
    ensures ShowMessage(rows, pool, sel, num) == rows
  {
  }

  /** Handling messages never looks at packets that come later. */
  lemma {:induction false} RowsOfPrefix(frames: seq<Frame>, more: seq<Frame>, sel: Selection, d: nat)
    requires d <= |frames|
    ensures RowsOf(frames + more, sel, d) == RowsOf(frames, sel, d)
  {
    hide PoolOf, Direct, Selected, ShowMessage;
    if d > 0 {
      RowsOfPrefix(frames, more, sel, d - 1);
      var rows := RowsOf(frames, sel, d - 1);
      MessageShows(rows, frames, sel, Num(d));
      MessageShows(rows, frames + more, sel, Num(d));
    }
  }

  /** Up to 65535 packets, the list built message by message is the matching subsequence. */
  lemma {:induction false} RowsOfIsMatching(frames: seq<Frame>, sel: Selection, d: nat)
    requires d <= |frames| && d < 65536
    ensures RowsOf(frames, sel, d) == Matching(frames, sel, d)
  {
    hide PoolOf, Direct, Selected, ShowMessage;
    if d > 0 {
      RowsOfIsMatching(frames, sel, d - 1);
      MessageShows(RowsOf(frames, sel, d - 1), frames, sel, d);
    }
  }

  /** One row per packet message, except those whose 16-bit number wrapped to 0. */
  lemma {:induction false} UnfilteredRows(frames: seq<Frame>, d: nat)
    requires d <= |frames|
    ensures |RowsOf(frames, 0, d)| == d - d / 65536
    ensures d < 65536 ==> forall j :: 0 <= j < d ==>
      RowsOf(frames, 0, d)[j] == Row(Direct(frames[j], j + 1), j + 1)
  {
    hide PoolOf, Layer, ShowMessage;
    if d > 0 {
      UnfilteredRows(frames, d - 1);
      MessageShows(RowsOf(frames, 0, d - 1), frames, 0, Num(d));
    }
  }

  /** printListCtrlPacketList(pool): entries 1..n. */
  method RedrawAll(pool: P.PacketPool) returns (rows: seq<Row>, r: int)
    requires pool.Valid()
    ensures rows == Redrawn(pool.contents, |pool.contents|)
    ensures r == if pool.contents == map[] then -1 else |pool.contents|
  {
    hide P.PacketPool.Valid, Entry, Show;
    rows := [];
    var empty := pool.IsEmpty();
    if empty {
      return rows, -1;
    }
    var pktNum := pool.GetSize();
    for i := 1 to pktNum + 1
      invariant rows == Redrawn(pool.contents, i - 1)
    {
      var pkt := pool.Get(i);
      var v := pkt.Value();
      rows := Show(rows, v, i);
    }
    return rows, pktNum;
  }

  function Redrawn(pool: Pool, n: nat): seq<Row> {
    if n == 0 then [] else Show(Redrawn(pool, n - 1), Entry(pool, n), n)
  }

  /** printListCtrlPacketList(pool, filter): entries 0..n-1. */
  method RedrawFiltered(pool: P.PacketPool, filter: string) returns (rows: seq<Row>, r: int)
    requires pool.Valid()
    ensures rows == if filter == "" then [] else RedrawnFiltered(pool.contents, filter, |pool.contents|)
    ensures pool.contents == map[] || filter == "" ==> r == -1
    ensures pool.contents != map[] && filter != "" ==> r == |Hits(pool.contents, filter, |pool.contents|)|
  {
    hide P.PacketPool.Valid, Entry, Show;
    rows := [];
    var empty := pool.IsEmpty();
    if empty || |filter| == 0 {
      return rows, -1;
    }
    var pktNum := pool.GetSize();
    r := 0;
    for i := 0 to pktNum
      invariant rows == RedrawnFiltered(pool.contents, filter, i)
      invariant r == |Hits(pool.contents, filter, i)|
    {
      HitsStep(pool.contents, filter, i);
      var pkt := pool.Get(i);
      if pkt.protocol == filter {
        var v := pkt.Value();
        rows := Show(rows, v, i);
        r := r + 1;
      }
    }
  }

  lemma HitsStep(pool: Pool, filter: string, n: nat)
    ensures |Hits(pool, filter, n + 1)|
         == |Hits(pool, filter, n)| + if Entry(pool, n).layers.protocol == filter then 1 else 0
  {
    var hit := if Entry(pool, n).layers.protocol == filter then {n} else {};
    assert Hits(pool, filter, n + 1) == Hits(pool, filter, n) + hit;
  }

  /** The numbers below `n` whose label is the filter. */
  ghost function Hits(pool: Pool, filter: string, n: nat): set<int> {
    set i | 0 <= i < n && Entry(pool, i).layers.protocol == filter
  }

  function RedrawnFiltered(pool: Pool, filter: string, n: nat): seq<Row> {
    if n == 0 then []
    else
      var before := RedrawnFiltered(pool, filter, n - 1);
      var pkt := Entry(pool, n - 1);
      if pkt.layers.protocol == filter then Show(before, pkt, n - 1) else before
  }

  /** The unfiltered redraw lists every packet of the pool. */
  lemma {:induction false} RedrawListsAll(frames: seq<Frame>, n: nat)
    requires n <= |frames|
    ensures Redrawn(PoolOf(frames), n) == Matching(frames, 0, n)
  {
    if n > 0 {
      hide PoolOf, Layer;
      RedrawListsAll(frames, n - 1);
      PoolOfIsDirect(frames);
      assert Entry(PoolOf(frames), n) == Direct(frames[n - 1], Num(n));
    }
  }

  /** The filtered redraw visits 0..n-1 of a pool numbered 1..n: the newest packet is left out. */
  lemma {:induction false} FilteredRedrawMissesLast(frames: seq<Frame>, sel: Selection, n: nat)
    requires sel > 0 && 0 < n <= |frames|
    ensures RedrawnFiltered(PoolOf(frames), FILTERS[sel - 1], n) == Matching(frames, sel, n - 1)
  {
    hide PoolOf, Layer;
    PoolOfIsDirect(frames);
    if n == 1 {
      assert Entry(PoolOf(frames), 0) == EMPTY_PACKET;
      assert RedrawnFiltered(PoolOf(frames), FILTERS[sel - 1], 0) == [];
      assert |FILTERS[sel - 1]| > 0;
    } else {
      FilteredRedrawMissesLast(frames, sel, n - 1);
      assert Entry(PoolOf(frames), n - 1) == Direct(frames[n - 2], Num(n - 1));
    }
  }

  /** So it agrees with the incremental list exactly when the newest packet does not match. */
  lemma FilteredRedrawAgreesIff(frames: seq<Frame>, sel: Selection)
    requires sel > 0 && 0 < |frames| < 65536
    ensures RedrawnFiltered(PoolOf(frames), FILTERS[sel - 1], |frames|) == RowsOf(frames, sel, |frames|)
       <==> Layer(frames[|frames| - 1].bytes).protocol != FILTERS[sel - 1]
  {
    FilteredRedrawMissesLast(frames, sel, |frames|);
    RowsOfIsMatching(frames, sel, |frames|);
  }

  /** One captured ARP packet and the filter "ARP": the list shows it, the redraw drops it. */
  lemma RedrawDropsArp()
    ensures FILTERS[2] == "ARP" && Layer(ArpSample().bytes).protocol == "ARP"
    ensures RowsOf([ArpSample()], 3, 1) == [Row(Direct(ArpSample(), 1), 1)]
    ensures RedrawnFiltered(PoolOf([ArpSample()]), FILTERS[2], 1) == []
  {
    hide ArpSample, PoolOf, ShowMessage;
    MessageShows([], [ArpSample()], 3, 1);
    FilteredRedrawMissesLast([ArpSample()], 3, 1);
  }

  // ---------------------------------------------------------------- how often a packet is listed

  /** The k-th captured packet passes the filter. */
  predicate Wanted(frames: seq<Frame>, sel: Selection, k: nat) {
    1 <= k <= |frames| && Selected(sel, Direct(frames[k - 1], Num(k)))
  }

  function Listed(rows: seq<Row>, k: nat): nat {
    if rows == [] then 0 else Listed(rows[..|rows| - 1], k) + if rows[|rows| - 1].owner == k then 1 else 0
  }

  /** How many of the first `d` packet messages carry the number `k`. */
  function Times(d: nat, k: nat): nat {
    if k == 0 || k >= 65536 || d < k then 0 else (d - k) / 65536 + 1
  }

  lemma TimesStep(d: nat, k: nat)
    requires d > 0 && k > 0
    ensures Times(d, k) == Times(d - 1, k) + if Num(d) == k then 1 else 0
  {
    if k < 65536 && d > k {
      var q, r := (d - 1 - k) / 65536, (d - 1 - k) % 65536;
      assert d == 65536 * q + (k + r + 1);
      if r == 65535 {
        assert d == 65536 * (q + 1) + k;
      }
    }
  }

  lemma ListedSnoc(rows: seq<Row>, row: Row, k: nat)
    ensures Listed(rows + [row], k) == Listed(rows, k) + if row.owner == k then 1 else 0
  {
    assert (rows + [row])[..|rows|] == rows;
  }

  lemma {:induction false} MatchingListed(frames: seq<Frame>, sel: Selection, n: nat, k: nat)
    requires n <= |frames| && k > 0
    ensures Listed(Matching(frames, sel, n), k) == if k <= n && Wanted(frames, sel, k) then 1 else 0
  {
    hide Selected, Direct;
    if n > 0 {
      MatchingListed(frames, sel, n - 1, k);
      var before, row := Matching(frames, sel, n - 1), Row(Direct(frames[n - 1], Num(n)), n);
      ListedSnoc(before, row, k);
      assert Matching(frames, sel, n) == if Wanted(frames, sel, n) then before + [row] else before;
    }
  }

  lemma {:induction false} RowsListed(frames: seq<Frame>, sel: Selection, d: nat, k: nat)
    requires d <= |frames| && k > 0
    ensures Listed(RowsOf(frames, sel, d), k) == if Wanted(frames, sel, k) then Times(d, k) else 0
  {
    hide RowsOf, Wanted, Direct, PoolOf, Times, Listed;
    if d > 0 {
      var j := Num(d);
      RowsListed(frames, sel, d - 1, k);
      TimesStep(d, k);
      RowsStep(frames, sel, d);
      if j > 0 {
        ListedSnoc(RowsOf(frames, sel, d - 1), Row(Direct(frames[j - 1], j), j), k);
      }
    } else {
      NothingListed(frames, sel, k);
    }
  }

  lemma NothingListed(frames: seq<Frame>, sel: Selection, k: nat)
    ensures Times(0, k) == 0 && Listed(RowsOf(frames, sel, 0), k) == 0
  {
  }

  /** The d-th message shows the packet whose number it carries, if the filter lets it through. */
  lemma RowsStep(frames: seq<Frame>, sel: Selection, d: nat)
    requires 0 < d <= |frames|
    ensures var j, before := Num(d), RowsOf(frames, sel, d - 1);
      RowsOf(frames, sel, d) ==
        if j > 0 && Wanted(frames, sel, j) then before + [Row(Direct(frames[j - 1], j), j)] else before
  {
    hide Selected, PoolOf, ShowMessage, Layer;
    MessageShows(RowsOf(frames, sel, d - 1), frames, sel, Num(d));
  }

  lemma {:induction false} MatchingSame(frames: seq<Frame>, sel: Selection, a: nat, b: nat)
    requires a <= b <= |frames| && forall k :: a < k <= b ==> !Wanted(frames, sel, k)
    ensures Matching(frames, sel, a) == Matching(frames, sel, b)
  {
    hide Selected, Direct;
    if a < b {
      MatchingSame(frames, sel, a, b - 1);
      assert !Wanted(frames, sel, b);
    }
  }

  /** As long as no packet is announced a second time, the list is the one before the numbers wrap. */
  lemma {:induction false} RowsOfFirst(frames: seq<Frame>, sel: Selection, d: nat)
    requires d <= |frames|
    requires forall k: nat :: Wanted(frames, sel, k) ==> Times(d, k) <= 1
    ensures RowsOf(frames, sel, d) == Matching(frames, sel, if d < 65536 then d else 65535)
    decreases d
  {
    hide Selected, PoolOf, ShowMessage, Layer;
    if d < 65536 {
      RowsOfIsMatching(frames, sel, d);
    } else {
      var j := Num(d);
      assert j > 0 ==> Times(d, j) > 1;
      MessageShows(RowsOf(frames, sel, d - 1), frames, sel, j);
      RowsOfFirst(frames, sel, d - 1);
    }
  }

  /** Every matching packet is announced once by `d` messages if it is among the first `n`, and not
      at all otherwise. */
  ghost predicate ShownAsOften(frames: seq<Frame>, sel: Selection, n: nat, d: nat) {
    forall k: nat :: Wanted(frames, sel, k) ==> Times(d, k) == if k <= n then 1 else 0
  }

  /** A redraw of the first `n` packets is the list after `d` messages exactly when it shows each
      matching packet as often as the messages did. */
  lemma MatchingIsRowsIff(frames: seq<Frame>, sel: Selection, n: nat, d: nat)
    requires n <= |frames| && d <= |frames|
    ensures Matching(frames, sel, n) == RowsOf(frames, sel, d)
       <==> ShownAsOften(frames, sel, n, d)
  {
    hide Matching, RowsOf, Selected;
    if Matching(frames, sel, n) == RowsOf(frames, sel, d) {
      forall k: nat | Wanted(frames, sel, k) ensures Times(d, k) == if k <= n then 1 else 0 {
        MatchingListed(frames, sel, n, k);
        RowsListed(frames, sel, d, k);
      }
    }
    if ShownAsOften(frames, sel, n, d) {
      var d1 := if d < 65536 then d else 65535;
      assert forall k: nat :: Wanted(frames, sel, k) ==> Times(d, k) <= 1;
      RowsOfFirst(frames, sel, d);
      forall k: nat | Wanted(frames, sel, k) ensures k <= n <==> k <= d1 {
        assert Times(d, k) == if k <= n then 1 else 0;
      }
      if n <= d1 { MatchingSame(frames, sel, n, d1); } else { MatchingSame(frames, sel, d1, n); }
    }
  }

  ghost predicate AgreeUpTo(frames: seq<Frame>, sel: Selection, other: Selection, d: nat) {
    forall k: nat :: 1 <= k <= d && k < 65536 ==> (Wanted(frames, sel, k) <==> Wanted(frames, other, k))
  }

  /** Two selections show the same list exactly when they agree on every packet announced so far. */
  lemma RowsAgreeIff(frames: seq<Frame>, sel: Selection, other: Selection, d: nat)
    requires d <= |frames|
    ensures RowsOf(frames, sel, d) == RowsOf(frames, other, d)
       <==> AgreeUpTo(frames, sel, other, d)
  {
    hide RowsOf, Selected;
    if RowsOf(frames, sel, d) == RowsOf(frames, other, d) {
      forall k: nat | 1 <= k <= d && k < 65536 ensures Wanted(frames, sel, k) <==> Wanted(frames, other, k) {
        RowsListed(frames, sel, d, k);
        RowsListed(frames, other, d, k);
      }
    }
    if AgreeUpTo(frames, sel, other, d) {
      RowsAgree(frames, sel, other, d);
    }
  }

  lemma {:induction false} RowsAgree(frames: seq<Frame>, sel: Selection, other: Selection, d: nat)
    requires d <= |frames|
    requires AgreeUpTo(frames, sel, other, d)
    ensures RowsOf(frames, sel, d) == RowsOf(frames, other, d)
  {
    hide Selected, PoolOf, ShowMessage, Layer;
    if d > 0 {
      var j := Num(d);
      RowsAgree(frames, sel, other, d - 1);
      MessageShows(RowsOf(frames, sel, d - 1), frames, sel, j);
      MessageShows(RowsOf(frames, other, d - 1), frames, other, j);
      assert j > 0 ==> (Wanted(frames, sel, j) <==> Wanted(frames, other, j));
    }
  }

  /** No frame is ever labelled "IP": the decoder's label is "IPv4". */
  lemma {:induction false} IPFilterMatchesNothing(frames: seq<Frame>, n: nat)
    requires n <= |frames|
    ensures FILTERS[1] == "IP" && Matching(frames, 2, n) == []
  {
    if n > 0 {
      IPFilterMatchesNothing(frames, n - 1);
      LabelIsNotIP(frames[n - 1].bytes);
    }
  }

  lemma LabelIsNotIP(d: seq<byte>)
    requires Decodable(d)
    ensures Layer(d).protocol != "IP"
  {
    DecodeLayering(d);
    var names := ["HTTP", "DHCP", "DNS", "TCP", "UDP", "ICMP", "ARP", "IPv4", "Ethernet"];
    assert forall i :: 0 <= i < |names| ==> |names[i]| != 2;
  }
}
