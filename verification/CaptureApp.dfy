/** The running program: the fields of PacketCatcher and of the dialog, the shared PacketPool object, what
    Windows and WinPcap hold for them (threads, posted messages, dump files), and the handlers that
    update all of these in place. The object follows every run of the Session machine. */
module CaptureApp {
  import opened Bytes
  import opened Decode
  import opened PacketModel
  import opened PacketList
  import P = PacketPool
  import S = Session

  class CaptureApp {
    // PacketCatcher
    var m_adhandle: Option<nat>
    var m_dumper: Option<nat>
    // WinPcap and the operating system
    var dumps: seq<seq<Frame>>
    var breaks: set<nat>
    var threads: seq<S.Thread>
    var queue: seq<S.Message>
    // the dialog, which owns the pool it shares with the capture threads
    const m_pool: P.PacketPool
    var m_comboBoxFilterList: Selection
    var m_fileOpenFlag: bool
    var m_openFileName: string
    var m_listCtrlPacketList: seq<Row>

    ghost var captured: seq<Frame>

    ghost function State(): S.State
      reads this, m_pool
    {
      S.State(m_adhandle, m_dumper, dumps, breaks, threads, queue, m_pool.contents, captured,
              m_comboBoxFilterList, m_fileOpenFlag, m_openFileName, m_listCtrlPacketList)
    }

    /** The pool object holds a true copy of every frame since its last clear, and every row points at
        one of its packets. */
    ghost predicate Sound()
      reads this, m_pool, m_pool.Repr
    {
      m_pool.Valid() && this !in m_pool.Repr && S.PoolInv(State())
    }

    /** And the handle is passed on correctly between handlers and threads. */
    ghost predicate Valid()
      reads this, m_pool, m_pool.Repr
    {
      Sound() && S.HandleInv(State())
    }

    constructor ()
      ensures Valid() && State() == S.INITIAL && fresh(m_pool.Repr)
    {
      m_adhandle, m_dumper, dumps, breaks, threads, queue := None, None, [], {}, [], [];
      m_pool := new P.PacketPool();
      m_comboBoxFilterList, m_fileOpenFlag, m_openFileName, m_listCtrlPacketList := 0, false, "", [];
      captured := [];
    }

    // ---------------------------------------------------------- PacketCatcher

    method OpenLive(selItemIndexOfDevList: int, pcapOpens: bool) returns (r: bool)
      modifies this`m_adhandle, this`m_dumper, this`dumps
      ensures (State(), r) == S.OpenLive(old(State()), selItemIndexOfDevList, pcapOpens)
    {
      if selItemIndexOfDevList < 0 || m_adhandle.Some? {
        return false;
      }
      m_adhandle := if pcapOpens then Some(|dumps|) else None;
      if m_adhandle.None? {
        return false;
      }
      m_dumper := Some(|dumps|);
      dumps := dumps + [[]];
      return true;
    }

    method OpenFile(path: string, pcapOpens: bool) returns (r: bool)
      modifies this`m_adhandle, this`dumps
      ensures (State(), r) == S.OpenFile(old(State()), path, pcapOpens)
    {
      if path == "" {
        return false;
      }
      m_adhandle := if pcapOpens then Some(|dumps|) else None;
      if m_adhandle.None? {
        return false;
      }
      dumps := dumps + [[]];
      return true;
    }

    method CloseAdapter() returns (r: bool)
      modifies this`m_adhandle, this`m_dumper
      ensures State() == S.CloseAdapter(old(State())) && r == old(m_adhandle).Some?
    {
      if m_adhandle.Some? {
        m_adhandle := None;
        if m_dumper.Some? {
          m_dumper := None;
        }
        return true;
      }
      return false;
    }

    method StartCapture(mode: S.Mode, file: seq<Frame>)
      modifies this`threads
      ensures State() == S.StartCapture(old(State()), mode, file)
    {
      if m_adhandle.Some? {
        threads := threads + [S.Thread(m_adhandle.value, m_dumper, mode, file, 0)];
      }
    }

    method StopCapture()
      modifies this`breaks
      ensures State() == S.StopCapture(old(State()))
    {
      if m_adhandle.Some? {
        breaks := breaks + {m_adhandle.value};
      }
    }

    /** m_pool->add, and the number of the packet that is then the last one. The pool is dense, so the
        frame goes into a fresh packet. */
    method Record(header: Header, pkt_data: array<byte>) returns (num: nat)
      requires m_pool.Valid() && this !in m_pool.Repr && Dense(m_pool.contents)
      requires header.caplen <= pkt_data.Length && Decodable(pkt_data[..header.caplen])
      modifies m_pool.Repr
      ensures m_pool.Valid() && this !in m_pool.Repr && fresh(m_pool.Repr - old(m_pool.Repr))
      ensures m_pool.contents == AddCapture(old(m_pool.contents), Capture(header, old(pkt_data[..header.caplen])))
      ensures num == LastEntry(m_pool.contents).num
    {
      hide AddCapture, LastEntry;
      m_pool.Add(Some(header), pkt_data);
      var newest := m_pool.GetLast();
      num := newest.num;
    }

    /** packet_handler on thread `i`. */
    method PacketHandler(i: nat, header: Header, pkt_data: array<byte>)
      requires Sound() && i < |threads|
      requires header.caplen <= pkt_data.Length && Decodable(pkt_data[..header.caplen])
      modifies this, m_pool.Repr
      ensures Sound() && fresh(m_pool.Repr - old(m_pool.Repr)) && (old(Valid()) ==> Valid())
      ensures State() == S.PacketHandler(old(State()), i, Capture(header, old(pkt_data[..header.caplen])))
    {
      hide S.PacketHandler, S.HandleInv, AddCapture, Decodable, PoolOf, LastEntry, Dense, P.PacketPool.Valid;
      ghost var before := State();
      var f: Frame := Capture(header, pkt_data[..header.caplen]);
      PoolOfIsDirect(captured);
      var t := threads[i];
      var num := Record(header, pkt_data);
      captured := captured + [f];
      if t.mode.Live? && t.dumper.Some? && t.dumper.value < |dumps| {
        dumps := dumps[t.dumper.value := dumps[t.dumper.value] + [f]];
      }
      threads := threads[i := t.(read := t.read + 1)];
      queue := queue + [S.PktCatch(num)];
      PacketHandled(before, i, f, State(), num);
    }

    /** capture_thread after pcap_loop has returned. */
    method ThreadExit(i: nat)
      requires Sound() && i < |threads|
      modifies this`threads, this`queue
      ensures Sound() && (old(Valid()) ==> Valid())
      ensures State() == S.ThreadExit(old(State()), i)
    {
      hide S.HandleInv;
      ghost var before := State();
      threads := threads[..i] + threads[i + 1..];
      queue := queue + [S.TExit];
      if S.HandleInv(before) { S.HandleInvExit(before, i); }
    }

    // ---------------------------------------------------------- CkendoUIDlg

    /** DeleteAllItems and m_pool.clear() */
    method ClearAll()
      requires m_pool.Valid() && this !in m_pool.Repr
      modifies this`m_listCtrlPacketList, this`captured, m_pool
      ensures m_pool.Valid() && m_pool.Repr == old(m_pool.Repr)
      ensures State() == S.ClearAll(old(State()))
    {
      m_listCtrlPacketList := [];
      m_pool.Clear();
      captured := [];
    }

    method OnClickedStart(selItemIndex: int, pcapOpens: bool, fileName: string)
      requires Sound()
      modifies this, m_pool
      ensures Sound() && m_pool.Repr == old(m_pool.Repr) && (old(Valid()) ==> Valid())
      ensures State() == S.OnClickedStart(old(State()), selItemIndex, pcapOpens, fileName)
    {
      hide S.HandleInv, PoolOf, P.PacketPool.Valid;
      ghost var before := State();
      Stepped(before, S.Start(selItemIndex, pcapOpens, fileName));
      if selItemIndex <= 0 {
        return;
      }
      var ok := OpenLive(selItemIndex, pcapOpens);
      if ok {
        ClearAll();
        StartCapture(S.Live, []);
        m_openFileName := fileName;
        m_fileOpenFlag := true;
      }
    }

    method OnClickedStop()
      requires Sound()
      modifies this`breaks
      ensures Sound() && (old(Valid()) ==> Valid())
      ensures State() == S.StopCapture(old(State()))
    {
      Stepped(State(), S.Stop);
      StopCapture();
    }

    method OnMenuFileOpen(picked: S.FilePick, pcapOpens: bool, file: seq<Frame>)
      requires Sound()
      modifies this, m_pool
      ensures Sound() && m_pool.Repr == old(m_pool.Repr)
      ensures old(Valid() && (m_adhandle.None? || S.Refused(State(), picked))) ==> Valid()
      ensures State() == S.OnMenuFileOpen(old(State()), picked, pcapOpens, file)
    {
      hide S.HandleInv, PoolOf, P.PacketPool.Valid;
      ghost var before := State();
      Stepped(before, S.Open(picked, pcapOpens, file));
      if picked.ext != "pcap" {
        return;
      }
      if picked.name == m_openFileName {
        return;
      }
      var ok := OpenFile(picked.path, pcapOpens);
      if ok {
        m_openFileName := picked.name;
        ClearAll();
        StartCapture(S.Offline, file);
        m_fileOpenFlag := true;
      }
    }

    method OnMenuFileClose()
      requires Sound()
      modifies this, m_pool
      ensures Sound() && m_pool.Repr == old(m_pool.Repr) && (old(Valid()) ==> Valid())
      ensures State() == S.OnMenuFileClose(old(State()))
    {
      hide S.HandleInv, PoolOf, P.PacketPool.Valid;
      Stepped(State(), S.CloseFile);
      if m_fileOpenFlag {
        ClearAll();
        m_openFileName := "";
      }
    }

    method SelectFilter(choice: Selection)
      requires Sound()
      modifies this`m_comboBoxFilterList
      ensures Sound() && (old(Valid()) ==> Valid())
      ensures State() == old(State()).(sel := choice)
    {
      Stepped(State(), S.Select(choice));
      m_comboBoxFilterList := choice;
    }

    method OnClickedFilter()
      requires Sound()
      modifies this`m_listCtrlPacketList
      ensures Sound() && (old(Valid()) ==> Valid())
      ensures State() == S.OnClickedFilter(old(State()))
    {
      hide S.HandleInv, PoolOf, P.PacketPool.Valid;
      Stepped(State(), S.ClickFilter);
      var selIndex := m_comboBoxFilterList;
      if selIndex <= 0 {
        return;
      }
      var strFilter := FILTERS[selIndex - 1];
      assert strFilter != "";
      var rows, _ := RedrawFiltered(m_pool, strFilter);
      m_listCtrlPacketList := rows;
    }

    method OnClickedClear()
      requires Sound()
      modifies this`m_comboBoxFilterList, this`m_listCtrlPacketList
      ensures Sound() && (old(Valid()) ==> Valid())
      ensures State() == S.OnClickedClear(old(State()))
    {
      hide S.HandleInv, PoolOf, P.PacketPool.Valid;
      Stepped(State(), S.ClickClear);
      m_comboBoxFilterList := 0;
      var rows, _ := RedrawAll(m_pool);
      m_listCtrlPacketList := rows;
    }

    method OnPktCatchMessage(pktNum: nat)
      requires m_pool.Valid() && this !in m_pool.Repr
      modifies this`m_listCtrlPacketList
      ensures State() == old(State()).(rows :=
        ShowMessage(old(m_listCtrlPacketList), m_pool.contents, m_comboBoxFilterList, pktNum))
    {
      hide P.PacketPool.Valid;
      if pktNum > 0 {
        var pkt := m_pool.Get(pktNum);
        var v := pkt.Value();
        var selFilterIndex := m_comboBoxFilterList;
        if selFilterIndex > 0 {
          var strFilter := FILTERS[selFilterIndex - 1];
          if strFilter == pkt.protocol {
            m_listCtrlPacketList := Show(m_listCtrlPacketList, v, pktNum);
          }
        } else {
          m_listCtrlPacketList := Show(m_listCtrlPacketList, v, pktNum);
        }
      }
    }

    /** The message loop takes the oldest message. */
    method Deliver()
      requires Sound() && queue != []
      modifies this
      ensures Sound() && (old(Valid()) ==> Valid())
      ensures State() == S.Deliver(old(State()))
    {
      hide S.HandleInv, PoolOf, P.PacketPool.Valid, ShowMessage;
      Stepped(State(), S.Handle);
      var message := queue[0];
      queue := queue[1..];
      match message {
        case PktCatch(num) => OnPktCatchMessage(num);
        case TExit => var _ := CloseAdapter();
      }
    }

    // ---------------------------------------------------------- runs

    /** WinPcap hands the frame `f` to the thread `i` in a buffer of its own. */
    method Arrive(i: nat, f: Frame)
      requires Sound() && i < |threads|
      modifies this, m_pool.Repr
      ensures Sound() && fresh(m_pool.Repr - old(m_pool.Repr)) && (old(Valid()) ==> Valid())
      ensures State() == S.PacketHandler(old(State()), i, f)
    {
      hide S.PacketHandler, S.HandleInv, S.PoolInv, P.PacketPool.Valid;
      var bytes := f.bytes;
      var data := new byte[|bytes|](k requires 0 <= k < |bytes| => bytes[k]);
      assert data[..f.header.caplen] == bytes;
      PacketHandler(i, f.header, data);
    }

    /** One step of the program, whoever takes it. */
    method Perform(a: S.Action)
      requires Sound() && S.Enabled(State(), a)
      modifies this, m_pool.Repr
      ensures Sound() && fresh(m_pool.Repr - old(m_pool.Repr))
      ensures State() == S.Step(old(State()), a)
      ensures old(Valid() && S.HandleGuard(State(), a)) ==> Valid()
    {
      hide S.PacketHandler, S.ThreadExit, S.Deliver, S.OnClickedStart, S.OnMenuFileOpen, S.OnMenuFileClose,
        S.OnClickedFilter, S.OnClickedClear, S.StopCapture, S.HandleInv, S.PoolInv;
      match a {
        case Start(devSel, ok, fileName) => OnClickedStart(devSel, ok, fileName);
        case Stop => OnClickedStop();
        case Open(picked, ok, file) => OnMenuFileOpen(picked, ok, file);
        case CloseFile => OnMenuFileClose();
        case Select(choice) => SelectFilter(choice);
        case ClickFilter => OnClickedFilter();
        case ClickClear => OnClickedClear();
        case Packet(i, f) => Arrive(i, f);
        case Exit(i, _) => ThreadExit(i);
        case Handle => Deliver();
      }
    }

    /** The program follows every run of the machine, with the packets in one heap; if files are only
        opened while no handle is held, every state on the way is safe. */
    method Run(actions: seq<S.Action>, ghost states: seq<S.State>)
      requires Valid() && State() == S.INITIAL
      requires S.Run(states, actions)
      modifies this, m_pool.Repr
      ensures Sound() && State() == states[|actions|]
      ensures S.HandleGuarded(states, actions) ==> Valid() && S.HandleSafe(State())
    {
      hide S.HandleSafe;
      for i := 0 to |actions|
        invariant Sound() && fresh(m_pool.Repr - old(m_pool.Repr)) && State() == states[i]
        invariant S.HandleGuarded(states, actions) ==> Valid()
      {
        Perform(actions[i]);
      }
      if S.HandleGuarded(states, actions) {
        S.HandleSafety(states, actions, |actions|);
      }
    }
  }

  /** The invariants after a step, as the handlers need them. */
  lemma Stepped(s: S.State, a: S.Action)
    requires S.PoolInv(s) && S.Enabled(s, a)
    ensures S.PoolInv(S.Step(s, a))
    ensures S.HandleInv(s) && S.HandleGuard(s, a) ==> S.HandleInv(S.Step(s, a))
  {
    hide S.PoolInv, S.HandleInv, S.Step;
    S.PoolInvStep(s, a);
    if S.HandleInv(s) && S.HandleGuard(s, a) {
      S.HandleInvStep(s, a);
    }
  }

  /** The state that packet_handler leaves, put together from its parts. */
  lemma PacketHandled(s: S.State, i: nat, f: Frame, t: S.State, num: nat)
    requires S.PoolInv(s) && i < |s.threads| && num == LastEntry(AddCapture(s.pool, f)).num
    requires var th := s.threads[i];
      t == s.(pool := AddCapture(s.pool, f), captured := s.captured + [f],
        dumps := if th.mode.Live? && th.dumper.Some? && th.dumper.value < |s.dumps|
          then s.dumps[th.dumper.value := s.dumps[th.dumper.value] + [f]] else s.dumps,
        threads := s.threads[i := th.(read := th.read + 1)], queue := s.queue + [S.PktCatch(num)])
    ensures t == S.PacketHandler(s, i, f) && S.PoolInv(t) && (S.HandleInv(s) ==> S.HandleInv(t))
  {
    hide S.HandleInv, S.PoolInv, AddCapture, LastEntry;
    S.PoolInvPacket(s, i, f);
    if S.HandleInv(s) {
      S.HandleInvPacket(s, i, f);
    }
  }
}
