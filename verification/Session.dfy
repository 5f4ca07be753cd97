/** The capture session as a state machine. One step is one UI handler, one call of packet_handler,
    the end of a capture thread, or the delivery of the oldest posted message: all interleavings of
    these are runs. Handles are numbered by the order in which they were opened. */
module Session {
  import opened Bytes
  import opened Decode
  import opened PacketModel
  import opened PacketList

  datatype Mode = Live | Offline

  /** WM_PKTCATCH with the packet number, and WM_TEXIT. */
  datatype Message = PktCatch(num: nat) | TExit

  /** A running capture_thread with its ThreadParam. An offline thread has read the first `read`
      records of `file`. */
  datatype Thread = Thread(handle: nat, dumper: Option<nat>, mode: Mode, file: seq<Frame>, read: nat)

  /** What the file dialog returns. */
  datatype FilePick = FilePick(path: string, name: string, ext: string)

  datatype State = State(
    handle: Option<nat>,         // m_adhandle
    dumper: Option<nat>,         // m_dumper
    dumps: seq<seq<Frame>>,      // the records dumped under each handle opened so far
    breaks: set<nat>,            // handles on which pcap_breakloop was called
    threads: seq<Thread>,
    queue: seq<Message>,         // posted and not yet handled
    pool: Pool,                  // m_pool
    captured: seq<Frame>,        // history: frames added to the pool since its last clear
    sel: Selection,              // filter list selection
    fileOpen: bool,              // m_fileOpenFlag
    openFileName: string,        // m_openFileName
    rows: seq<Row>)              // packet list control

  const INITIAL := State(None, None, [], {}, [], [], map[], [], 0, false, "", [])

  // ------------------------------------------------------------ PacketCatcher

  /** openAdapter(index, time); `ok` tells whether pcap_open_live succeeds. */
  function OpenLive(s: State, devSel: int, ok: bool): (State, bool) {
    if devSel < 0 || s.handle.Some? then (s, false)
    else if !ok then (s.(handle := None), false)
    else
      var id := |s.dumps|;
      (s.(handle := Some(id), dumper := Some(id), dumps := s.dumps + [[]]), true)
  }

  /** openAdapter(path): no guard, the old handle is overwritten even when opening fails. */
  function OpenFile(s: State, path: string, ok: bool): (State, bool) {
    if path == "" then (s, false)
    else if !ok then (s.(handle := None), false)
    else (s.(handle := Some(|s.dumps|), dumps := s.dumps + [[]]), true)
  }

  function CloseAdapter(s: State): State {
    if s.handle.Some? then s.(handle := None, dumper := None) else s
  }

  function StartCapture(s: State, mode: Mode, file: seq<Frame>): State {
    if s.handle.Some? then s.(threads := s.threads + [Thread(s.handle.value, s.dumper, mode, file, 0)]) else s
  }

  function StopCapture(s: State): State {
    if s.handle.Some? then s.(breaks := s.breaks + {s.handle.value}) else s
  }

  /** packet_handler, called by thread `i` with frame `f`. */
  function PacketHandler(s: State, i: nat, f: Frame): State
    requires i < |s.threads|
  {
    var t := s.threads[i];
    var pool := AddCapture(s.pool, f);
    var dumps :=
      if t.mode.Live? && t.dumper.Some? && t.dumper.value < |s.dumps|
      then s.dumps[t.dumper.value := s.dumps[t.dumper.value] + [f]] else s.dumps;
    s.(pool := pool, captured := s.captured + [f], dumps := dumps,
       threads := s.threads[i := t.(read := t.read + 1)],
       queue := s.queue + [PktCatch(LastEntry(pool).num)])
  }

  /** pcap_loop returns in thread `i`, which then posts WM_TEXIT. */
  function ThreadExit(s: State, i: nat): State
    requires i < |s.threads|
  {
    s.(threads := s.threads[..i] + s.threads[i + 1..], queue := s.queue + [TExit])
  }

  // ------------------------------------------------------------ CkendoUIDlg

  function ClearAll(s: State): State {
    s.(rows := [], pool := map[], captured := [])
  }

  /** `fileName` is the name of the dump file, made from the current time. */
  function OnClickedStart(s: State, devSel: int, ok: bool, fileName: string): State {
    if devSel <= 0 then s
    else
      var (s1, didOpen) := OpenLive(s, devSel, ok);
      if didOpen then StartCapture(ClearAll(s1), Live, []).(fileOpen := true, openFileName := fileName) else s1
  }

  function OnMenuFileOpen(s: State, picked: FilePick, ok: bool, file: seq<Frame>): State {
    if picked.ext != "pcap" || picked.name == s.openFileName then s
    else
      var (s1, didOpen) := OpenFile(s, picked.path, ok);
      if didOpen then StartCapture(ClearAll(s1), Offline, file).(fileOpen := true, openFileName := picked.name) else s1
  }

  function OnMenuFileClose(s: State): State {
    if s.fileOpen then ClearAll(s).(openFileName := "") else s
  }

  function OnClickedFilter(s: State): State {
    if s.sel == 0 then s else s.(rows := RedrawnFiltered(s.pool, FILTERS[s.sel - 1], |s.pool|))
  }

  function OnClickedClear(s: State): State {
    s.(sel := 0, rows := Redrawn(s.pool, |s.pool|))
  }

  /** The oldest message is handled: OnPktCatchMessage or OnTExitMessage. */
  function Deliver(s: State): State
    requires s.queue != []
  {
    var s1 := s.(queue := s.queue[1..]);
    match s.queue[0]
    case PktCatch(num) => s1.(rows := ShowMessage(s.rows, s.pool, s.sel, num))
    case TExit => CloseAdapter(s1)
  }

  // ------------------------------------------------------------ runs

  datatype Action =
    | Start(devSel: int, ok: bool, fileName: string)
    | Stop
    | Open(picked: FilePick, opens: bool, file: seq<Frame>)
    | CloseFile
    | Select(choice: Selection)
    | ClickFilter
    | ClickClear
    | Packet(thread: nat, frame: Frame)
    | Exit(leaver: nat, error: bool)
    | Handle

  predicate Enabled(s: State, a: Action) {
    match a
    case Packet(i, f) =>
      i < |s.threads| &&
      var t := s.threads[i];
      (t.mode.Offline? ==> t.read < |t.file| && f == t.file[t.read])
    case Exit(i, error) =>
      i < |s.threads| &&
      var t := s.threads[i];
      (error || t.handle in s.breaks || (t.mode.Offline? && t.read >= |t.file|))
    case Handle => s.queue != []
    case _ => true
  }

  function Step(s: State, a: Action): State
    requires Enabled(s, a)
  {
    match a
    case Start(devSel, ok, fileName) => OnClickedStart(s, devSel, ok, fileName)
    case Stop => StopCapture(s)
    case Open(picked, ok, file) => OnMenuFileOpen(s, picked, ok, file)
    case CloseFile => OnMenuFileClose(s)
    case Select(choice) => s.(sel := choice)
    case ClickFilter => OnClickedFilter(s)
    case ClickClear => OnClickedClear(s)
    case Packet(i, f) => PacketHandler(s, i, f)
    case Exit(i, error) => ThreadExit(s, i)
    case Handle => Deliver(s)
  }

  /** states[k+1] follows states[k] by actions[k], from the state the program starts in. */
  ghost predicate Run(states: seq<State>, actions: seq<Action>) {
    && |states| == |actions| + 1 && states[0] == INITIAL
    && forall k :: 0 <= k < |actions| ==> Enabled(states[k], actions[k]) && states[k + 1] == Step(states[k], actions[k])
  }

  // ------------------------------------------------------------ what holds in every run

  /** The pool always is what the frames since its last clear make it, and every row points at an
      entry that is still there. */
  ghost predicate PoolInv(s: State) {
    s.pool == PoolOf(s.captured) && forall r :: r in s.rows ==> r.owner in s.pool
  }

  lemma {:induction false} RedrawnOwners(pool: Pool, n: nat)
    ensures forall r :: r in Redrawn(pool, n) ==> r.owner in pool
  {
    if n > 0 { RedrawnOwners(pool, n - 1); }
  }

  lemma {:induction false} RedrawnFilteredOwners(pool: Pool, filter: string, n: nat)
    ensures forall r :: r in RedrawnFiltered(pool, filter, n) ==> r.owner in pool
  {
    if n > 0 { RedrawnFilteredOwners(pool, filter, n - 1); }
  }

  lemma PoolInvPacket(s: State, i: nat, f: Frame)
    requires PoolInv(s) && i < |s.threads|
    ensures PoolInv(PacketHandler(s, i, f))
  {
    hide AssignVal, Direct, PoolOf, LastEntry;
    PoolOfSnoc(s.captured, f);
  }

  lemma MessageOwners(s: State)
    requires PoolInv(s) && s.queue != []
    ensures PoolInv(Deliver(s))
  {
    hide PoolOf, Selected;
  }

  lemma PoolInvStep(s: State, a: Action)
    requires PoolInv(s) && Enabled(s, a)
    ensures PoolInv(Step(s, a))
  {
    hide PacketHandler, Redrawn, RedrawnFiltered, ShowMessage;
    match a {
      case Handle => MessageOwners(s);
      case ClickFilter => if s.sel > 0 { RedrawnFilteredOwners(s.pool, FILTERS[s.sel - 1], |s.pool|); }
      case ClickClear => RedrawnOwners(s.pool, |s.pool|);
      case Packet(i, f) => PoolInvPacket(s, i, f);
      case _ =>
    }
  }

  lemma {:induction false} PoolInvAlways(states: seq<State>, actions: seq<Action>, k: nat)
    requires Run(states, actions) && k < |states|
    ensures PoolInv(states[k])
  {
    if k > 0 {
      PoolInvAlways(states, actions, k - 1);
      PoolInvStep(states[k - 1], actions[k - 1]);
    }
  }

  // ------------------------------------------------------------ the handle

  /** The dialog or openAdapter turns the file down before anything is touched. */
  predicate Refused(s: State, picked: FilePick) {
    picked.ext != "pcap" || picked.name == s.openFileName || picked.path == ""
  }

  /** A file is only opened while no handle is held. */
  predicate HandleGuard(s: State, a: Action) {
    a.Open? ==> s.handle.None? || Refused(s, a.picked)
  }

  ghost predicate HandleGuarded(states: seq<State>, actions: seq<Action>)
    requires |states| == |actions| + 1
  {
    forall k :: 0 <= k < |actions| ==> HandleGuard(states[k], actions[k])
  }

  /** The messages before the thread-exit message, if that one is last; all messages otherwise. */
  function Pending(queue: seq<Message>): nat {
    if queue != [] && queue[|queue| - 1] == TExit then |queue| - 1 else |queue|
  }

  ghost predicate HandleInv(s: State) {
    && (forall j :: 0 <= j < Pending(s.queue) ==> s.queue[j].PktCatch?)
    && match s.handle
       case None => s.threads == [] && s.queue == [] && s.dumper.None?
       case Some(h) =>
         && h < |s.dumps|
         && (s.dumper.Some? ==> s.dumper.value == h)
         && (if Pending(s.queue) < |s.queue| then s.threads == [] else |s.threads| == 1)
         && (forall t :: t in s.threads ==> t.handle == h && t.dumper == s.dumper && (t.mode.Live? <==> t.dumper.Some?))
  }

  lemma HandleInvPacket(s: State, i: nat, f: Frame)
    requires HandleInv(s) && i < |s.threads|
    ensures HandleInv(PacketHandler(s, i, f))
  {
    hide AddCapture, LastEntry;
    var q := s.queue + [PktCatch(LastEntry(AddCapture(s.pool, f)).num)];
    assert Pending(q) == |q|;
  }

  lemma HandleInvExit(s: State, i: nat)
    requires HandleInv(s) && i < |s.threads|
    ensures HandleInv(ThreadExit(s, i))
  {
    assert Pending(s.queue + [TExit]) == |s.queue|;
  }

  lemma HandleInvDeliver(s: State)
    requires HandleInv(s) && s.queue != []
    ensures HandleInv(Deliver(s))
  {
    hide ShowMessage;
    var q := s.queue[1..];
    if s.queue[0] != TExit {
      assert q != [] ==> q[|q| - 1] == s.queue[|s.queue| - 1];
      assert forall j :: 0 <= j < |q| ==> q[j] == s.queue[j + 1];
    }
  }

  lemma HandleInvStep(s: State, a: Action)
    requires HandleInv(s) && Enabled(s, a) && HandleGuard(s, a)
    ensures HandleInv(Step(s, a))
  {
    hide PacketHandler, ThreadExit, Deliver, Redrawn, RedrawnFiltered;
    match a {
      case Packet(i, f) => HandleInvPacket(s, i, f);
      case Exit(i, _) => HandleInvExit(s, i);
      case Handle => HandleInvDeliver(s);
      case _ =>
    }
  }

  lemma {:induction false} HandleInvAlways(states: seq<State>, actions: seq<Action>, k: nat)
    requires Run(states, actions) && HandleGuarded(states, actions) && k < |states|
    ensures HandleInv(states[k])
  {
    if k > 0 {
      HandleInvAlways(states, actions, k - 1);
      HandleInvStep(states[k - 1], actions[k - 1]);
    }
  }

  /** The handle is held exactly while one capture thread runs on it or one WM_TEXIT is queued,
      never both, never more than one of either; WM_TEXIT is the last message of its session; and
      closeAdapter, when a WM_TEXIT is handled, never closes a handle that a thread still uses. */
  ghost predicate HandleSafe(s: State) {
    && (s.handle.Some? <==> |s.threads| + multiset(s.queue)[TExit] == 1)
    && |s.threads| + multiset(s.queue)[TExit] <= 1
    && (forall t :: t in s.threads ==> s.handle == Some(t.handle))
    && (s.handle.None? ==> s.queue == [])
    && (TExit in s.queue ==> s.queue[|s.queue| - 1] == TExit)
    && (s.queue != [] && s.queue[0] == TExit ==> s.threads == [] && s.handle.Some?)
  }

  lemma HandleSafety(states: seq<State>, actions: seq<Action>, k: nat)
    requires Run(states, actions) && HandleGuarded(states, actions) && k < |states|
    ensures HandleSafe(states[k])
  {
    HandleInvAlways(states, actions, k);
    ExitCount(states[k].queue);
  }

  lemma ExitCount(queue: seq<Message>)
    requires forall j :: 0 <= j < Pending(queue) ==> queue[j].PktCatch?
    ensures multiset(queue)[TExit] == |queue| - Pending(queue)
    ensures TExit in queue <==> Pending(queue) < |queue|
  {
    var front := queue[..Pending(queue)];
    assert TExit !in front;
    assert multiset(front)[TExit] == 0;
    if Pending(queue) < |queue| {
      assert queue == front + [TExit];
    } else {
      assert queue == front;
    }
  }

  /** The guard is exactly what is needed: a file that is opened while a handle is held always leaves
      a state that is not safe. */
  lemma OpenIsSafeIff(s: State, picked: FilePick, ok: bool, file: seq<Frame>)
    requires HandleInv(s)
    ensures HandleSafe(OnMenuFileOpen(s, picked, ok, file)) <==> s.handle.None? || Refused(s, picked)
  {
    ExitCount(s.queue);
  }

  // ------------------------------------------------------------ what each action changes

  /** Start: with an adapter selected, no handle held and the adapter opened, a new handle and a dump of its
      own, an empty pool and list, and one more thread, which captures live. Otherwise nothing. */
  lemma StartStep(s: State, devSel: int, ok: bool, fileName: string)
    ensures var id := |s.dumps|;
      Step(s, Start(devSel, ok, fileName)) ==
      if devSel <= 0 || s.handle.Some? || !ok then s
      else s.(handle := Some(id), dumper := Some(id), dumps := s.dumps + [[]],
              rows := [], pool := map[], captured := [],
              threads := s.threads + [Thread(id, Some(id), Live, [], 0)], fileOpen := true, openFileName := fileName)
  {
  }

  /** Open: nothing for another extension, the name of the open file or an empty path; the handle is lost if
      the file cannot be opened; otherwise a new handle, the old dumper, an empty pool and list, and one more
      thread, which reads the file from its start. */
  lemma OpenStep(s: State, picked: FilePick, ok: bool, file: seq<Frame>)
    ensures var id := |s.dumps|;
      Step(s, Open(picked, ok, file)) ==
      if picked.ext != "pcap" || picked.name == s.openFileName || picked.path == "" then s
      else if !ok then s.(handle := None)
      else s.(handle := Some(id), dumps := s.dumps + [[]], rows := [], pool := map[], captured := [],
              threads := s.threads + [Thread(id, s.dumper, Offline, file, 0)], fileOpen := true,
              openFileName := picked.name)
  {
  }

  /** Stop lets exactly the thread on the held handle leave, beside those that could leave before, and
      changes nothing else. */
  lemma StopEnablesExitIff(s: State, i: nat)
    requires i < |s.threads|
    ensures Enabled(Step(s, Stop), Exit(i, false)) <==>
      Enabled(s, Exit(i, false)) || s.handle == Some(s.threads[i].handle)
    ensures Step(s, Stop).(breaks := s.breaks) == s
  {
    assert Step(s, Stop).threads == s.threads;
  }

  /** In a safe session Stop always ends the capture: its thread can leave. */
  lemma StopEndsCapture(s: State, i: nat)
    requires HandleInv(s) && i < |s.threads|
    ensures Enabled(Step(s, Stop), Exit(i, false))
  {
    StopEnablesExitIff(s, i);
    assert s.threads[i] in s.threads;
  }

  /** Close empties list and pool and forgets the name, once anything was opened; threads, messages, handle and
      dumps stay. */
  lemma CloseStep(s: State)
    ensures Step(s, CloseFile) ==
      if s.fileOpen then s.(rows := [], pool := map[], captured := [], openFileName := "") else s
  {
  }

  /** Choosing a filter changes the selection alone; applying it changes the rows alone, and nothing for the
      first entry; clearing it resets the selection and redraws. */
  lemma FilterSteps(s: State, choice: Selection)
    ensures Step(s, Select(choice)) == s.(sel := choice)
    ensures Step(s, ClickFilter).(rows := s.rows) == s
    ensures s.sel == 0 ==> Step(s, ClickFilter) == s
    ensures Step(s, ClickClear).(rows := s.rows, sel := s.sel) == s && Step(s, ClickClear).sel == 0
  {
    hide Redrawn, RedrawnFiltered;
  }

  /** A packet in thread `i`: the pool takes it as its last one, its own dump takes it if it captures live, its
      number is posted last, and no other thread and no other dump changes. */
  lemma PacketStep(s: State, i: nat, f: Frame)
    requires PoolInv(s) && Enabled(s, Packet(i, f))
    ensures var r, t := Step(s, Packet(i, f)), s.threads[i];
      && r.captured == s.captured + [f] && r.pool == PoolOf(s.captured + [f])
      && r.queue == s.queue + [PktCatch((|s.captured| + 1) % 65536)]
      && |r.threads| == |s.threads| && r.threads[i] == t.(read := t.read + 1)
      && (forall j :: 0 <= j < |s.threads| && j != i ==> r.threads[j] == s.threads[j])
      && |r.dumps| == |s.dumps|
      && (forall h :: 0 <= h < |s.dumps| ==>
           r.dumps[h] == if t.mode == Live && t.dumper == Some(h) then s.dumps[h] + [f] else s.dumps[h])
      && r.(captured := s.captured, pool := s.pool, queue := s.queue, threads := s.threads, dumps := s.dumps) == s
  {
    hide Layer, AddCapture, LastEntry, PoolOf;
    PoolOfSnoc(s.captured, f);
    PoolOfIsDirect(s.captured + [f]);
  }

  /** Thread `i` leaves, and no other; WM_TEXIT is posted last. */
  lemma ExitStep(s: State, i: nat, error: bool)
    requires Enabled(s, Exit(i, error))
    ensures var r := Step(s, Exit(i, error));
      && r.queue == s.queue + [TExit] && |r.threads| == |s.threads| - 1
      && (forall j :: 0 <= j < i ==> r.threads[j] == s.threads[j])
      && (forall j :: i <= j < |r.threads| ==> r.threads[j] == s.threads[j + 1])
      && r.(threads := s.threads, queue := s.queue) == s
  {
  }

  // ------------------------------------------------------------ concrete runs

  lemma FirstPacketStep(s: State, t: Thread, f: Frame)
    requires s.threads == [t] && s.captured == [] && s.pool == map[] && Enabled(s, Packet(0, f))
    ensures Step(s, Packet(0, f)) ==
      s.(pool := PoolOf([f]), captured := [f], threads := [t.(read := t.read + 1)], queue := s.queue + [PktCatch(1)],
         dumps := if t.mode.Live? && t.dumper.Some? && t.dumper.value < |s.dumps|
           then s.dumps[t.dumper.value := s.dumps[t.dumper.value] + [f]] else s.dumps)
  {
    hide Layer, AddCapture, LastEntry;
    PoolOfIsDirect([f]);
    PoolOfSnoc([], f);
    assert s.captured + [f] == [f];
  }

  /** The first packet of a live session that is just started. */
  lemma FirstLivePacketStep(s: State, t: Thread, f: Frame)
    requires s.threads == [t] && s.captured == [] && s.pool == map[] && t.mode.Live? && t.dumper == Some(0)
    requires s.dumps == [[]]
    ensures Step(s, Packet(0, f)) ==
      s.(pool := PoolOf([f]), captured := [f], threads := [t.(read := t.read + 1)], queue := s.queue + [PktCatch(1)],
         dumps := [[f]])
  {
    hide Step, PoolOf;
    FirstPacketStep(s, t, f);
    assert s.dumps[0] + [f] == [f];
  }

  lemma HandleStep(s: State, message: Message, rest: seq<Message>)
    requires s.queue == [message] + rest
    ensures Step(s, Handle) ==
      match message
      case PktCatch(num) => s.(queue := rest, rows := ShowMessage(s.rows, s.pool, s.sel, num))
      case TExit => CloseAdapter(s.(queue := rest))
  {
    hide ShowMessage;
  }

  /** A run, step by step. */
  ghost predicate Leads(s: State, a: Action, t: State) {
    Enabled(s, a) && Step(s, a) == t
  }

  lemma StepByStep(s: seq<State>, a: seq<Action>)
    requires |s| == |a| + 1 && s[0] == INITIAL && forall k :: 0 <= k < |a| ==> Leads(s[k], a[k], s[k + 1])
    ensures Run(s, a)
  {
    hide Step, Enabled;
    forall k | 0 <= k < |a| ensures Enabled(s[k], a[k]) && s[k + 1] == Step(s[k], a[k]) {
      assert Leads(s[k], a[k], s[k + 1]);
    }
  }

  /** The states after Start, and after Start and one packet. */
  function LiveStarted(): State {
    INITIAL.(handle := Some(0), dumper := Some(0), dumps := [[]], threads := [Thread(0, Some(0), Live, [], 0)],
             fileOpen := true, openFileName := "live.pcap")
  }

  function LiveCaptured(f: Frame): State {
    LiveStarted().(pool := PoolOf([f]), captured := [f], threads := [Thread(0, Some(0), Live, [], 1)],
                   queue := [PktCatch(1)], dumps := [[f]])
  }

  lemma LiveRun(f: Frame)
    ensures Leads(INITIAL, Start(1, true, "live.pcap"), LiveStarted())
    ensures Leads(LiveStarted(), Packet(0, f), LiveCaptured(f))
  {
    hide OnClickedStart, PacketHandler, PoolOf;
    StartStep(INITIAL, 1, true, "live.pcap");
    FirstLivePacketStep(LiveStarted(), LiveStarted().threads[0], f);
  }

  /** Stop enables Open at once: a run in which the first thread's WM_TEXIT is about to close the
      handle on which the second thread is running. */
  lemma StopThenOpenBreaks(f: Frame) returns (states: seq<State>, actions: seq<Action>)
    ensures Run(states, actions) && |states| == 5
    ensures actions[1] == Stop && actions[2].Open?
    ensures var s := states[4];
      && s.queue == [TExit] && |s.threads| == 1 && s.handle == Some(s.threads[0].handle)
      && Deliver(s).handle.None? && Deliver(s).threads == s.threads
  {
    hide Run, Leads;
    var picked := FilePick("a.pcap", "a.pcap", "pcap");
    var live, offline := Thread(0, Some(0), Live, [], 0), Thread(1, Some(0), Offline, [f], 0);
    actions := [Start(1, true, "live.pcap"), Stop, Open(picked, true, [f]), Exit(0, false)];
    var s2 := LiveStarted().(breaks := {0});
    var s3 := s2.(handle := Some(1), dumps := [[], []], threads := [live, offline], openFileName := "a.pcap");
    var s4 := s3.(threads := [offline], queue := [TExit]);
    LiveRun(f);
    OpenedAfterStop(s2, picked, live, offline, f, s3);
    LeftAfterOpen(s3, live, offline, s4);
    states := [INITIAL, LiveStarted(), s2, s3, s4];
    assert Leads(states[0], actions[0], states[1]) && Leads(states[1], actions[1], states[2]);
    assert Leads(states[2], actions[2], states[3]) && Leads(states[3], actions[3], states[4]);
    StepByStep(states, actions);
  }

  lemma OpenedAfterStop(s2: State, picked: FilePick, live: Thread, offline: Thread, f: Frame, s3: State)
    requires picked == FilePick("a.pcap", "a.pcap", "pcap") && s2 == LiveStarted().(breaks := {0})
    requires live == Thread(0, Some(0), Live, [], 0) && offline == Thread(1, Some(0), Offline, [f], 0)
    requires s3 == s2.(handle := Some(1), dumps := [[], []], threads := [live, offline], openFileName := "a.pcap")
    ensures Leads(LiveStarted(), Stop, s2) && Leads(s2, Open(picked, true, [f]), s3)
  {
    hide OnMenuFileOpen;
    assert "live.pcap"[0] != "a.pcap"[0];
    OpenStep(s2, picked, true, [f]);
  }

  lemma LeftAfterOpen(s3: State, live: Thread, offline: Thread, s4: State)
    requires s3.threads == [live] + [offline] && live.handle in s3.breaks
    requires s4 == s3.(threads := [offline], queue := s3.queue + [TExit])
    ensures Leads(s3, Exit(0, false), s4)
  {
    hide ThreadExit;
    ExitStep(s3, 0, false);
    assert Step(s3, Exit(0, false)).threads == [offline];
  }

  // ------------------------------------------------------------ the display

  /** The queued packet messages carry the numbers of the last packets of the pool, in order. */
  ghost predicate QueueInv(s: State) {
    var n, p := |s.captured|, Pending(s.queue);
    p <= n && forall j :: 0 <= j < p ==> s.queue[j] == PktCatch(Num(n - p + 1 + j))
  }

  /** The number of packets whose messages have been handled. */
  function Handled(s: State): nat {
    if Pending(s.queue) <= |s.captured| then |s.captured| - Pending(s.queue) else 0
  }

  /** The list is in step: it shows what the messages handled so far show. */
  ghost predicate DisplayInv(s: State) {
    QueueInv(s) && s.rows == RowsOf(s.captured, s.sel, Handled(s))
  }

  /** A file is closed only while no packet message is waiting. */
  predicate QueueGuard(s: State, a: Action) {
    HandleGuard(s, a) && (a.CloseFile? ==> !s.fileOpen || Pending(s.queue) == 0)
  }

  /** From a state in which no packet message is waiting up to the `k`-th. */
  ghost predicate QueueGuarded(states: seq<State>, actions: seq<Action>, i: nat, k: nat) {
    && Run(states, actions) && HandleGuarded(states, actions) && i <= k < |states|
    && Pending(states[i].queue) == 0
    && forall x :: i <= x < k ==> QueueGuard(states[x], actions[x])
  }

  /** A filter redraw lists each matching packet as often as the messages so far. */
  ghost predicate FilterFits(s: State) {
    s.captured == [] || ShownAsOften(s.captured, s.sel, |s.captured| - 1, Handled(s))
  }

  /** The actions that leave a list that is in step in step. */
  ghost predicate DisplayGuard(s: State, a: Action) {
    && QueueGuard(s, a)
    && (a.Select? ==> AgreeUpTo(s.captured, a.choice, s.sel, Handled(s)))
    && (a.ClickFilter? ==> s.sel == 0 || FilterFits(s))
    && (a.ClickClear? ==> Pending(s.queue) == 0 && |s.captured| < 65536)
  }

  lemma QueueInvPacket(s: State, i: nat, f: Frame)
    requires PoolInv(s) && HandleInv(s) && QueueInv(s) && i < |s.threads|
    ensures QueueInv(PacketHandler(s, i, f)) && Handled(PacketHandler(s, i, f)) == Handled(s)
  {
    hide AddCapture, PoolOf;
    var t := PacketHandler(s, i, f);
    PoolOfSnoc(s.captured, f);
    PoolOfIsDirect(s.captured + [f]);
    assert Pending(s.queue) == |s.queue| && Pending(t.queue) == |t.queue|;
  }

  lemma QueueInvDeliver(s: State)
    requires HandleInv(s) && QueueInv(s) && s.queue != []
    ensures QueueInv(Deliver(s))
    ensures Handled(Deliver(s)) == Handled(s) + if s.queue[0] == TExit then 0 else 1
  {
    hide ShowMessage;
    var q := s.queue[1..];
    if s.queue[0] != TExit {
      assert q != [] ==> q[|q| - 1] == s.queue[|s.queue| - 1];
      assert forall j :: 0 <= j < |q| ==> q[j] == s.queue[j + 1];
    }
  }

  /** Messages and pool stay in step exactly under this guard: closing a file empties the pool, but
      leaves its messages in the queue. */
  lemma QueueStepIff(s: State, a: Action)
    requires PoolInv(s) && HandleInv(s) && QueueInv(s) && Enabled(s, a) && HandleGuard(s, a)
    ensures QueueInv(Step(s, a)) <==> QueueGuard(s, a)
  {
    hide PacketHandler, Deliver, Redrawn, RedrawnFiltered, PoolOf;
    match a {
      case Packet(i, f) => QueueInvPacket(s, i, f);
      case Exit(i, _) => assert Pending(s.queue + [TExit]) == |s.queue|;
      case Handle => QueueInvDeliver(s);
      case _ =>
    }
  }

  lemma {:induction false} QueueInvAlways(states: seq<State>, actions: seq<Action>, i: nat, k: nat)
    requires QueueGuarded(states, actions, i, k)
    ensures PoolInv(states[k]) && HandleInv(states[k]) && QueueInv(states[k])
    decreases k
  {
    hide PoolInv, HandleInv, Step, QueueGuard;
    PoolInvAlways(states, actions, k);
    HandleInvAlways(states, actions, k);
    if k > i {
      QueueInvAlways(states, actions, i, k - 1);
      assert QueueGuard(states[k - 1], actions[k - 1]) && HandleGuard(states[k - 1], actions[k - 1]);
      QueueStepIff(states[k - 1], actions[k - 1]);
    }
  }

  /** Close is enabled while a file is being read: a run that empties the pool and the list and leaves
      the message of a packet that is gone. */
  lemma CloseStrandsMessage(f: Frame) returns (states: seq<State>, actions: seq<Action>)
    ensures Run(states, actions) && HandleGuarded(states, actions) && |states| == 4
    ensures actions[2] == CloseFile && states[2].handle.Some?
    ensures var s := states[3];
      && s.pool == map[] && s.rows == [] && s.queue == [PktCatch(1)]
      && Announced(s) == [1] && !QueueInv(s)
  {
    hide OnClickedStart, OnMenuFileOpen, OnClickedFilter, OnClickedClear, PacketHandler, ThreadExit, Deliver, PoolOf;
    var reading := Thread(0, None, Offline, [f, f], 0);
    var picked := FilePick("a.pcap", "a.pcap", "pcap");
    actions := [Open(picked, true, [f, f]), Packet(0, f), CloseFile];
    var s1 := INITIAL.(handle := Some(0), dumps := [[]], threads := [reading],
                       fileOpen := true, openFileName := "a.pcap");
    var s2 := s1.(pool := PoolOf([f]), captured := [f], threads := [reading.(read := 1)], queue := [PktCatch(1)]);
    var s3 := s2.(pool := map[], captured := [], openFileName := "");
    OpenStep(INITIAL, picked, true, [f, f]);
    FirstPacketStep(s1, reading, f);
    assert Announced(s3) == [1];
    states := [INITIAL, s1, s2, s3];
  }

  // ------------------------------------------------------------ the list

  lemma DisplayInvPacket(s: State, i: nat, f: Frame)
    requires PoolInv(s) && HandleInv(s) && DisplayInv(s) && i < |s.threads|
    ensures DisplayInv(PacketHandler(s, i, f))
  {
    hide AddCapture, PoolOf, RowsOf;
    QueueInvPacket(s, i, f);
    RowsOfPrefix(s.captured, [f], s.sel, Handled(s));
  }

  lemma DisplayInvDeliver(s: State)
    requires PoolInv(s) && HandleInv(s) && DisplayInv(s) && s.queue != []
    ensures DisplayInv(Deliver(s))
  {
    hide ShowMessage, PoolOf;
    QueueInvDeliver(s);
  }

  /** Clearing the filter puts the list in step exactly when no packet message is waiting and the
      numbers have not wrapped; otherwise packets will be listed twice. */
  lemma ClearSettlesIff(s: State)
    requires PoolInv(s) && QueueInv(s)
    ensures DisplayInv(OnClickedClear(s)) <==> Pending(s.queue) == 0 && |s.captured| < 65536
  {
    hide PoolOf, RowsOf, Matching, Redrawn, Direct;
    var n, d := |s.captured|, Handled(s);
    PoolSize(s.captured);
    RedrawListsAll(s.captured, n);
    MatchingIsRowsIff(s.captured, 0, n, d);
    assert n > 0 ==> Wanted(s.captured, 0, n);
  }

  /** Applying a filter puts the list in step exactly when the redraw lists each matching packet as
      often as the messages did. */
  lemma FilterSettlesIff(s: State)
    requires PoolInv(s) && QueueInv(s) && s.sel > 0
    ensures DisplayInv(OnClickedFilter(s)) <==> FilterFits(s)
  {
    hide PoolOf, RowsOf, RedrawnFiltered, Matching, Layer, ShownAsOften;
    var n := |s.captured|;
    PoolSize(s.captured);
    if n > 0 {
      FilteredRedrawMissesLast(s.captured, s.sel, n);
      MatchingIsRowsIff(s.captured, s.sel, n - 1, Handled(s));
    } else {
      NothingDrawn(FILTERS[s.sel - 1], s.sel);
    }
  }

  lemma NothingDrawn(filter: string, sel: Selection)
    ensures RedrawnFiltered(PoolOf([]), filter, 0) == [] == RowsOf([], sel, 0)
  {
  }

  /** The same in plain words, up to 65535 packets: with nothing waiting, the newest packet must not
      match; with `p` packets waiting, none of those but the newest may match. */
  lemma FilterInStepIff(s: State)
    requires PoolInv(s) && QueueInv(s) && s.sel > 0 && 0 < |s.captured| < 65536
    ensures var n, p := |s.captured|, Pending(s.queue);
      DisplayInv(OnClickedFilter(s)) <==>
      if p == 0 then !Wanted(s.captured, s.sel, n)
      else forall k: nat :: n - p < k < n ==> !Wanted(s.captured, s.sel, k)
  {
    hide PoolOf, OnClickedFilter, DisplayInv, Selected;
    FilterSettlesIff(s);
  }

  /** Choosing another filter leaves the list in step exactly when both agree on every packet
      announced so far. */
  lemma SelectInStepIff(s: State, choice: Selection)
    requires DisplayInv(s)
    ensures DisplayInv(s.(sel := choice)) <==> AgreeUpTo(s.captured, choice, s.sel, Handled(s))
  {
    hide RowsOf, AgreeUpTo;
    RowsAgreeIff(s.captured, choice, s.sel, Handled(s));
  }

  /** One step keeps the list in step exactly under the guard. */
  lemma DisplayStepIff(s: State, a: Action)
    requires PoolInv(s) && HandleInv(s) && DisplayInv(s) && Enabled(s, a) && HandleGuard(s, a)
    ensures DisplayInv(Step(s, a)) <==> DisplayGuard(s, a)
  {
    hide PacketHandler, Deliver, ThreadExit, Redrawn, RedrawnFiltered, PoolOf, FilterFits, AgreeUpTo, OnClickedFilter,
      OnClickedClear, OnClickedStart, OnMenuFileOpen, OnMenuFileClose, StopCapture, HandleInv, PoolInv, DisplayInv;
    match a {
      case Packet(i, f) => DisplayInvPacket(s, i, f);
      case Exit(i, _) => DisplayInvExit(s, i);
      case Handle => DisplayInvDeliver(s);
      case Select(choice) => SelectInStepIff(s, choice);
      case ClickClear => DisplayIsQueue(s); ClearSettlesIff(s);
      case ClickFilter => FilterClickIff(s);
      case _ => DisplayOtherIff(s, a);
    }
  }

  lemma DisplayIsQueue(s: State)
    requires DisplayInv(s)
    ensures QueueInv(s)
  {
  }

  lemma DisplayInvExit(s: State, i: nat)
    requires HandleInv(s) && DisplayInv(s) && i < |s.threads|
    ensures DisplayInv(ThreadExit(s, i))
  {
    hide RowsOf;
    assert Pending(s.queue + [TExit]) == |s.queue|;
  }

  /** Start, Stop, Open and Close. */
  lemma DisplayOtherIff(s: State, a: Action)
    requires PoolInv(s) && HandleInv(s) && DisplayInv(s) && HandleGuard(s, a)
    requires a.Start? || a.Stop? || a.Open? || a.CloseFile?
    ensures DisplayInv(Step(s, a)) <==> DisplayGuard(s, a)
  {
    hide PoolOf, PoolInv;
    assert RowsOf([], s.sel, 0) == [];
  }

  lemma FilterClickIff(s: State)
    requires PoolInv(s) && DisplayInv(s)
    ensures DisplayInv(OnClickedFilter(s)) <==> s.sel == 0 || FilterFits(s)
  {
    hide PoolOf, FilterFits, RedrawnFiltered, RowsOf;
    if s.sel > 0 {
      FilterSettlesIff(s);
    }
  }

  /** Where a list gets in step, whatever was shown before: pool and list are empty, or the last action
      was a redraw that fits. */
  ghost predicate Settled(states: seq<State>, actions: seq<Action>, i: nat, j: nat)
    requires |states| == |actions| + 1 && j < |states|
  {
    || (states[j].captured == [] && states[j].rows == [])
    || (j > i && actions[j - 1].ClickClear? && DisplayGuard(states[j - 1], ClickClear))
    || (j > i && actions[j - 1].ClickFilter? && states[j - 1].sel > 0 && FilterFits(states[j - 1]))
  }

  /** Messages are in step with the pool from `i` on, the list from `j` on. Both may be 0. */
  ghost predicate InStep(states: seq<State>, actions: seq<Action>, i: nat, j: nat, k: nat) {
    && QueueGuarded(states, actions, i, k) && i <= j <= k
    && Settled(states, actions, i, j)
    && forall x :: j <= x < k ==> DisplayGuard(states[x], actions[x])
  }

  /** In every run these points exist: the start. */
  lemma InStepAtStart(states: seq<State>, actions: seq<Action>)
    requires Run(states, actions) && HandleGuarded(states, actions)
    ensures InStep(states, actions, 0, 0, 0)
  {
  }

  lemma SettledInStep(states: seq<State>, actions: seq<Action>, i: nat, j: nat)
    requires QueueGuarded(states, actions, i, j) && i <= j && Settled(states, actions, i, j)
    ensures DisplayInv(states[j])
  {
    hide HandleInv, FilterFits, OnClickedClear, OnClickedFilter, QueueGuard, HandleGuard;
    QueueInvAlways(states, actions, i, j);
    if !(states[j].captured == [] && states[j].rows == []) {
      var s := states[j - 1];
      QueueInvAlways(states, actions, i, j - 1);
      assert states[j] == Step(s, actions[j - 1]);
      if actions[j - 1].ClickClear? { ClearSettlesIff(s); } else { FilterSettlesIff(s); }
    }
  }

  lemma {:induction false} DisplayInvAlways(states: seq<State>, actions: seq<Action>, i: nat, j: nat, k: nat)
    requires InStep(states, actions, i, j, k)
    ensures PoolInv(states[k]) && HandleInv(states[k]) && DisplayInv(states[k])
    decreases k
  {
    hide DisplayInv, HandleInv, PoolInv, Settled, DisplayGuard, QueueGuard, Step;
    QueueInvAlways(states, actions, i, k);
    if k == j {
      SettledInStep(states, actions, i, j);
    } else {
      DisplayInvAlways(states, actions, i, j, k - 1);
      var s, a := states[k - 1], actions[k - 1];
      assert HandleGuard(s, a) && DisplayGuard(s, a);
      DisplayStepIff(s, a);
    }
  }

  /** Numbers on display followed by numbers in queued packet messages. */
  function Announced(s: State): seq<int> {
    seq(|s.rows|, j requires 0 <= j < |s.rows| => s.rows[j].packet.num) +
    seq(Pending(s.queue), j requires 0 <= j < Pending(s.queue) => if s.queue[j].PktCatch? then s.queue[j].num else -1)
  }

  /** The list is the matching subsequence of what has been captured, in capture order, for as long as
      the 16-bit numbers do not wrap. */
  lemma IncrementalDisplay(states: seq<State>, actions: seq<Action>, i: nat, j: nat, k: nat)
    requires InStep(states, actions, i, j, k) && |states[k].captured| < 65536
    ensures var s := states[k];
      && Pending(s.queue) <= |s.captured| == |s.pool|
      && s.rows == Matching(s.captured, s.sel, |s.captured| - Pending(s.queue))
  {
    hide Run, Settled, DisplayGuard, QueueGuard, PoolOf, RowsOf, Matching, HandleInv;
    var s := states[k];
    DisplayInvAlways(states, actions, i, j, k);
    PoolSize(s.captured);
    RowsOfIsMatching(s.captured, s.sel, |s.captured| - Pending(s.queue));
  }

  /** With no filter, display and queue together announce exactly packets 1, 2, .., pool size:
      nothing lost, nothing twice, nothing from an earlier session. That is so exactly as long as
      the pool holds at most 65535 packets. */
  lemma NothingLostIff(states: seq<State>, actions: seq<Action>, i: nat, j: nat, k: nat)
    requires InStep(states, actions, i, j, k) && states[k].sel == 0
    ensures Announced(states[k]) == seq(|states[k].pool|, x => x + 1) <==> |states[k].pool| < 65536
  {
    hide Run, Settled, DisplayGuard, QueueGuard, PoolOf, DisplayInv, HandleInv, Announced;
    DisplayInvAlways(states, actions, i, j, k);
    PoolSize(states[k].captured);
    if |states[k].pool| < 65536 {
      AnnouncesAll(states[k]);
    } else {
      AnnouncesLess(states[k]);
    }
  }

  lemma AnnouncesAll(s: State)
    requires DisplayInv(s) && s.sel == 0 && |s.captured| < 65536
    ensures Announced(s) == seq(|s.captured|, j => j + 1)
  {
    hide RowsOf, Direct;
    var n, p, said := |s.captured|, Pending(s.queue), Announced(s);
    UnfilteredRows(s.captured, n - p);
    assert |s.rows| == n - p;
    forall j | 0 <= j < n
      ensures said[j] == j + 1
    {
      if j < n - p {
        RowNumber(s, j);
      } else {
        QueuedNumber(s, j - (n - p));
      }
    }
  }

  lemma RowNumber(s: State, j: nat)
    requires DisplayInv(s) && s.sel == 0 && |s.captured| < 65536 && j < |s.captured| - Pending(s.queue)
    ensures j < |s.rows| && s.rows[j].packet.num == j + 1
  {
    hide RowsOf, Direct;
    UnfilteredRows(s.captured, |s.captured| - Pending(s.queue));
    DirectNum(s.captured[j], j + 1);
  }

  lemma QueuedNumber(s: State, j: nat)
    requires QueueInv(s) && |s.captured| < 65536 && j < Pending(s.queue)
    ensures s.queue[j] == PktCatch(|s.captured| - Pending(s.queue) + 1 + j)
  {
  }

  lemma DirectNum(c: Frame, num: nat)
    ensures Direct(c, num).num == num
  {
    hide Layer;
  }

  lemma AnnouncesLess(s: State)
    requires DisplayInv(s) && s.sel == 0 && |s.captured| >= 65536
    ensures Announced(s) != seq(|s.captured|, j => j + 1)
  {
    hide RowsOf, Direct;
    var n, p, said := |s.captured|, Pending(s.queue), Announced(s);
    UnfilteredRows(s.captured, n - p);
    if n - p < 65536 {
      var j := 65535 - (n - p);
      assert s.queue[j] == PktCatch(Num(65536));
      assert said[65535] == 0;
      assert seq(n, j => j + 1)[65535] == 65536;
    } else {
      assert |said| < n;
    }
  }

  /** A redraw while a message waits: Start, one packet, Clear, and then its message. The packet is listed
      twice. */
  lemma ClearListsTwice(f: Frame) returns (states: seq<State>, actions: seq<Action>)
    ensures Run(states, actions) && |states| == 5 && HandleGuarded(states, actions)
    ensures actions[2] == ClickClear && states[4].queue == []
    ensures var row := Row(Direct(f, 1), 1); states[4].rows == [row, row]
  {
    hide Run, Leads, PoolOf, Layer;
    var row := Row(Direct(f, 1), 1);
    actions := [Start(1, true, "live.pcap"), Packet(0, f), ClickClear, Handle];
    var s3 := LiveCaptured(f).(rows := [row]);
    var s4 := s3.(rows := [row, row], queue := []);
    LiveRun(f);
    ListedTwice(f, row, s3, s4);
    states := [INITIAL, LiveStarted(), LiveCaptured(f), s3, s4];
    StepByStep(states, actions);
  }

  lemma ListedTwice(f: Frame, row: Row, s3: State, s4: State)
    requires row == Row(Direct(f, 1), 1) && s3 == LiveCaptured(f).(rows := [row])
    requires s4 == s3.(rows := [row, row], queue := [])
    ensures Leads(LiveCaptured(f), ClickClear, s3) && Leads(s3, Handle, s4)
  {
    hide PoolOf, Redrawn, ShowMessage, Deliver, Direct, Matching;
    OneListed(f);
    HandleStep(s3, PktCatch(1), []);
    assert [row] + [row] == [row, row];
  }

  lemma OneListed(f: Frame)
    ensures var row := Row(Direct(f, 1), 1);
      && |PoolOf([f])| == 1 && Redrawn(PoolOf([f]), 1) == [row]
      && ShowMessage([row], PoolOf([f]), 0, 1) == [row] + [row]
  {
    hide PoolOf, Redrawn, ShowMessage, Layer;
    PoolSize([f]);
    RedrawListsAll([f], 1);
    assert Matching([f], 0, 0) == [];
    MessageShows([Row(Direct(f, 1), 1)], [f], 0, 1);
  }

  // ------------------------------------------------------------ the dump

  /** From a state in which no handle is held up to the `k`-th. */
  ghost predicate DumpGuarded(states: seq<State>, actions: seq<Action>, i: nat, k: nat) {
    && Run(states, actions) && HandleGuarded(states, actions) && i <= k < |states|
    && states[i].handle.None?
    && forall x :: i <= x < k ==> DumpGuard(states[x], actions[x])
  }

  /** A file is closed only when nothing was captured, or no dumper and no thread is left. */
  predicate DumpGuard(s: State, a: Action) {
    && HandleGuard(s, a)
    && (a.CloseFile? ==> !s.fileOpen || s.captured == [] || (s.dumper.None? && s.threads == []))
  }

  /** A live session has dumped what it captured; an offline one has captured what it read. */
  ghost predicate DumpInv(s: State) {
    && (s.dumper.Some? ==> s.dumper.value < |s.dumps| && s.dumps[s.dumper.value] == s.captured)
    && (forall t :: t in s.threads && t.mode.Offline? ==> t.read <= |t.file| && s.captured == t.file[..t.read])
  }

  lemma DumpInvPacket(s: State, i: nat, f: Frame)
    requires HandleInv(s) && DumpInv(s) && Enabled(s, Packet(i, f))
    ensures DumpInv(PacketHandler(s, i, f))
  {
    hide AddCapture, LastEntry;
    var t := s.threads[i];
    if t.mode.Offline? {
      assert t.file[..t.read + 1] == t.file[..t.read] + [f];
    }
  }

  /** One step keeps dump, file and pool together exactly under the guard. */
  lemma DumpStepIff(s: State, a: Action)
    requires HandleInv(s) && DumpInv(s) && Enabled(s, a) && HandleGuard(s, a)
    ensures DumpInv(Step(s, a)) <==> DumpGuard(s, a)
  {
    hide PacketHandler, ThreadExit, Deliver, Redrawn, RedrawnFiltered, OnMenuFileClose, DumpInv;
    match a {
      case Packet(i, f) => DumpInvPacket(s, i, f);
      case CloseFile => CloseDumpIff(s);
      case Exit(i, _) => DumpInvExit(s, i);
      case Handle => DumpInvDeliver(s);
      case _ => DumpInvOther(s, a);
    }
  }

  lemma DumpInvExit(s: State, i: nat)
    requires DumpInv(s) && i < |s.threads|
    ensures DumpInv(ThreadExit(s, i))
  {
  }

  lemma DumpInvDeliver(s: State)
    requires HandleInv(s) && DumpInv(s) && s.queue != []
    ensures DumpInv(Deliver(s))
  {
    hide ShowMessage;
  }

  /** Start, Stop, Open and the filter. */
  lemma DumpInvOther(s: State, a: Action)
    requires HandleInv(s) && DumpInv(s) && HandleGuard(s, a)
    requires !a.Packet? && !a.CloseFile? && !a.Exit? && !a.Handle?
    ensures DumpInv(Step(s, a))
  {
    hide Redrawn, RedrawnFiltered;
  }

  lemma CloseDumpIff(s: State)
    requires HandleInv(s) && DumpInv(s)
    ensures DumpInv(OnMenuFileClose(s)) <==> DumpGuard(s, CloseFile)
  {
    if s.fileOpen && s.captured != [] && s.dumper.None? && s.threads != [] {
      assert s.threads[0] in s.threads;
      assert s.threads[0].file[..s.threads[0].read] != [];
    }
  }

  lemma {:induction false} DumpInvAlways(states: seq<State>, actions: seq<Action>, i: nat, k: nat)
    requires DumpGuarded(states, actions, i, k)
    ensures PoolInv(states[k]) && HandleInv(states[k]) && DumpInv(states[k])
    decreases k
  {
    hide PoolInv, Step, DumpGuard;
    PoolInvAlways(states, actions, k);
    HandleInvAlways(states, actions, k);
    if k > i {
      DumpInvAlways(states, actions, i, k - 1);
      assert DumpGuard(states[k - 1], actions[k - 1]) && HandleGuard(states[k - 1], actions[k - 1]);
      DumpStepIff(states[k - 1], actions[k - 1]);
    }
  }

  /** At every step boundary of a live session the dump holds the packets of the pool, in order. */
  lemma DumpIsPool(states: seq<State>, actions: seq<Action>, i: nat, k: nat)
    requires DumpGuarded(states, actions, i, k) && states[k].dumper.Some?
    ensures var s := states[k];
      && s.dumper.value < |s.dumps| && |s.dumps[s.dumper.value]| == |s.pool|
      && forall j :: 1 <= j <= |s.pool| ==> Entry(s.pool, j) == Direct(s.dumps[s.dumper.value][j - 1], Num(j))
  {
    hide Run, HandleGuarded, DumpGuard, PoolOf, HandleInv, Direct;
    DumpInvAlways(states, actions, i, k);
    PoolOfIsDirect(states[k].captured);
  }
}
