/** Saving a capture and opening it again: PacketDumper.cpp joined to the session machine. */
module Replay {
  import opened Bytes
  import opened PacketModel
  import opened PacketList
  import opened Session

  const BUFFER_SIZE: nat := 1024

  /** CFile::Read at `pos` into `buf`: the number of bytes delivered, 0 at the end of the file. */
  method Read(src: seq<byte>, pos: nat, buf: array<byte>) returns (byteCount: nat)
    requires pos <= |src|
    modifies buf
    ensures byteCount == if |src| - pos < buf.Length then |src| - pos else buf.Length
    ensures buf[..byteCount] == src[pos..pos + byteCount]
  {
    byteCount := if |src| - pos < buf.Length then |src| - pos else buf.Length;
    for i := 0 to byteCount
      invariant buf[..i] == src[pos..pos + i]
    {
      buf[i] := src[pos + i];
    }
  }

  /** copyFile: chunk by chunk, every byte once and in order. */
  method CopyFile(src: seq<byte>) returns (dest: seq<byte>)
    ensures dest == src
  {
    var buf := new byte[BUFFER_SIZE];
    dest := [];
    var byteCount := Read(src, 0, buf);
    var pos := byteCount;
    while byteCount > 0
      invariant 0 <= byteCount <= BUFFER_SIZE && byteCount <= pos <= |src|
      invariant byteCount == 0 ==> pos == |src|
      invariant dest == src[..pos - byteCount] && buf[..byteCount] == src[pos - byteCount..pos]
      decreases |src| - pos + (if byteCount > 0 then 1 else 0)
    {
      dest := dest + buf[..byteCount];
      byteCount := Read(src, pos, buf);
      pos := pos + byteCount;
    }
  }

  /** The action empties the pool. */
  predicate Empties(s: State, a: Action) {
    match a
    case Start(devSel, ok, _) => devSel > 0 && s.handle.None? && ok
    case Open(picked, ok, _) => !Refused(s, picked) && ok
    case CloseFile => s.fileOpen
    case _ => false
  }

  /** A run in which, at `e`, an offline thread has read the whole file, and in which nothing empties the
      pool from there to `m`; by then the thread may have left. */
  ghost predicate ReadsFile(states: seq<State>, actions: seq<Action>, i: nat, e: nat, m: nat, file: seq<Frame>) {
    && DumpGuarded(states, actions, i, e) && e <= m < |states|
    && (exists t :: t in states[e].threads && t.mode.Offline? && t.file == file && t.read == |file|)
    && forall j :: e <= j < m ==> !Empties(states[j], actions[j])
  }

  /** The file is in the pool, and no thread has anything left to read. */
  ghost predicate AllRead(s: State, file: seq<Frame>) {
    s.captured == file && forall t :: t in s.threads ==> t.mode.Offline? && t.read >= |t.file|
  }

  lemma AllReadStep(s: State, a: Action, file: seq<Frame>)
    requires Enabled(s, a) && AllRead(s, file) && !Empties(s, a)
    requires HandleInv(s) && HandleGuard(s, a)
    ensures AllRead(Step(s, a), file)
  {
    hide AddCapture, LastEntry, Redrawn, RedrawnFiltered, ShowMessage, HandleInv;
  }

  lemma {:induction false} AllReadAlways(states: seq<State>, actions: seq<Action>, i: nat, e: nat, m: nat,
                                         file: seq<Frame>)
    requires ReadsFile(states, actions, i, e, m, file)
    ensures AllRead(states[m], file) && PoolInv(states[m])
    decreases m
  {
    hide PoolInv, HandleInv, Empties, Step, DumpGuard;
    PoolInvAlways(states, actions, m);
    if m == e {
      NothingUnread(states, actions, i, e, file);
    } else {
      AllReadAlways(states, actions, i, e, m - 1, file);
      HandleInvAlways(states, actions, m - 1);
      assert HandleGuard(states[m - 1], actions[m - 1]);
      AllReadStep(states[m - 1], actions[m - 1], file);
    }
  }

  lemma NothingUnread(states: seq<State>, actions: seq<Action>, i: nat, e: nat, file: seq<Frame>)
    requires ReadsFile(states, actions, i, e, e, file)
    ensures AllRead(states[e], file)
  {
    hide PoolInv, DumpGuard, HandleGuard, Run;
    DumpInvAlways(states, actions, i, e);
    var t :| t in states[e].threads && t.mode.Offline? && t.file == file && t.read == |file|;
    assert t.file[..t.read] == t.file;
  }

  /** A run in which, at `e`, a live session dumps under the handle `h`, and in which nothing empties the pool
      from there to `k`; by then its thread may have left and WM_TEXIT may have closed the dump. */
  ghost predicate Dumps(states: seq<State>, actions: seq<Action>, i: nat, e: nat, k: nat, h: nat) {
    && DumpGuarded(states, actions, i, e) && e <= k < |states|
    && states[e].dumper == Some(h)
    && forall j :: e <= j < k ==> !Empties(states[j], actions[j])
  }

  /** The dump of `h` holds what is in the pool, and whoever still captures dumps to it. */
  ghost predicate AllDumped(s: State, h: nat) {
    && h < |s.dumps| && s.dumps[h] == s.captured
    && forall t :: t in s.threads ==> t.mode.Live? && t.dumper == Some(h)
  }

  lemma AllDumpedStep(s: State, a: Action, h: nat)
    requires Enabled(s, a) && AllDumped(s, h) && !Empties(s, a)
    requires HandleInv(s) && HandleGuard(s, a)
    ensures AllDumped(Step(s, a), h)
  {
    hide AddCapture, LastEntry, Redrawn, RedrawnFiltered, ShowMessage, HandleInv;
  }

  lemma {:induction false} AllDumpedAlways(states: seq<State>, actions: seq<Action>, i: nat, e: nat, k: nat, h: nat)
    requires Dumps(states, actions, i, e, k, h)
    ensures AllDumped(states[k], h) && PoolInv(states[k])
    decreases k
  {
    hide PoolInv, HandleInv, Empties, Step, DumpGuard;
    PoolInvAlways(states, actions, k);
    if k == e {
      DumpedAt(states, actions, i, e, h);
    } else {
      AllDumpedAlways(states, actions, i, e, k - 1, h);
      HandleInvAlways(states, actions, k - 1);
      assert HandleGuard(states[k - 1], actions[k - 1]);
      AllDumpedStep(states[k - 1], actions[k - 1], h);
    }
  }

  lemma DumpedAt(states: seq<State>, actions: seq<Action>, i: nat, e: nat, h: nat)
    requires Dumps(states, actions, i, e, e, h)
    ensures AllDumped(states[e], h)
  {
    hide PoolInv, DumpGuard, HandleGuard, Run;
    DumpInvAlways(states, actions, i, e);
  }

  /** Saving the dump of a live session, while it runs, after Stop, or after WM_TEXIT has closed the dump:
      whatever guarded run opens the copy and reads it to the end has the live session's pool again, with
      the same bytes, numbers, layers and labels, and keeps it when the reading thread has left. `load` is
      what libpcap reads from the bytes of a file. */
  method SaveAs(saved: seq<byte>, ghost live: seq<State>, ghost done: seq<Action>,
                ghost i: nat, ghost e: nat, ghost k: nat, ghost h: nat,
                ghost load: seq<byte> -> seq<Frame>) returns (copy: seq<byte>)
    requires Dumps(live, done, i, e, k, h) && h < |live[k].dumps| && load(saved) == live[k].dumps[h]
    ensures forall states: seq<State>, actions: seq<Action>, b: nat, r: nat, m: nat ::
      ReadsFile(states, actions, b, r, m, load(copy)) ==> states[m].pool == live[k].pool
  {
    copy := CopyFile(saved);
    ReplayRebuilds(live, done, i, e, k, h);
  }

  lemma ReplayRebuilds(live: seq<State>, done: seq<Action>, i: nat, e: nat, k: nat, h: nat)
    requires Dumps(live, done, i, e, k, h)
    ensures h < |live[k].dumps|
    ensures forall states: seq<State>, actions: seq<Action>, b: nat, r: nat, m: nat ::
      ReadsFile(states, actions, b, r, m, live[k].dumps[h]) ==> states[m].pool == live[k].pool
  {
    AllDumpedAlways(live, done, i, e, k, h);
    var file := live[k].dumps[h];
    forall states: seq<State>, actions: seq<Action>, b: nat, r: nat, m: nat | ReadsFile(states, actions, b, r, m, file)
      ensures states[m].pool == live[k].pool
    {
      AllReadAlways(states, actions, b, r, m, file);
    }
  }

  /** The ordinary save: Start, one packet, Stop, the thread leaves and WM_TEXIT is handled. Handle and dumper
      are gone, and the dump is still there to be saved. */
  lemma SavedAfterExit(f: Frame) returns (states: seq<State>, actions: seq<Action>)
    ensures Dumps(states, actions, 0, 2, 6, 0) && actions[2] == Stop
    ensures states[6].handle.None? && states[6].dumper.None? && states[6].threads == []
    ensures states[6].captured == [f]
  {
    hide Run, Leads, PoolOf;
    actions := [Start(1, true, "live.pcap"), Packet(0, f), Stop, Exit(0, false), Handle, Handle];
    var s3 := LiveCaptured(f).(breaks := {0});
    var s4 := s3.(threads := [], queue := [PktCatch(1), TExit]);
    var s5 := s4.(queue := [TExit], rows := ShowMessage([], PoolOf([f]), 0, 1));
    var s6 := s5.(queue := [], handle := None, dumper := None);
    LiveRun(f);
    ClosedAfterStop(f, s3, s4, s5, s6);
    states := [INITIAL, LiveStarted(), LiveCaptured(f), s3, s4, s5, s6];
    StepByStep(states, actions);
  }

  lemma ClosedAfterStop(f: Frame, s3: State, s4: State, s5: State, s6: State)
    requires s3 == LiveCaptured(f).(breaks := {0})
    requires s4 == s3.(threads := [], queue := [PktCatch(1), TExit])
    requires s5 == s4.(queue := [TExit], rows := ShowMessage([], PoolOf([f]), 0, 1))
    requires s6 == s5.(queue := [], handle := None, dumper := None)
    ensures Leads(LiveCaptured(f), Stop, s3) && Leads(s3, Exit(0, false), s4)
    ensures Leads(s4, Handle, s5) && Leads(s5, Handle, s6)
  {
    hide PoolOf, ShowMessage, Deliver, ThreadExit;
    ExitStep(s3, 0, false);
    HandleStep(s4, PktCatch(1), [TExit]);
    HandleStep(s5, TExit, []);
  }

  /** Such a replay exists for every file: open it and let the thread read it record by record. */
  lemma {:induction false} ReplayRun(file: seq<Frame>, n: nat) returns (states: seq<State>, actions: seq<Action>)
    requires n <= |file|
    ensures |states| == |actions| + 1 && DumpGuarded(states, actions, 0, |actions|)
    ensures states[|actions|].threads == [Thread(0, None, Offline, file, n)]
    ensures n == |file| ==> ReadsFile(states, actions, 0, |actions|, |actions|, file)
  {
    hide AddCapture, LastEntry, Redrawn, RedrawnFiltered, ShowMessage, OnClickedStart, Deliver, ThreadExit;
    if n == 0 {
      actions := [Open(FilePick("a.pcap", "a.pcap", "pcap"), true, file)];
      states := [INITIAL, Step(INITIAL, actions[0])];
    } else {
      states, actions := ReplayRun(file, n - 1);
      var s, a := states[|states| - 1], Packet(0, file[n - 1]);
      states, actions := states + [Step(s, a)], actions + [a];
    }
  }
}
