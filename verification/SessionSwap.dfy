/** Replacing the supervisor under a running terminal session: `SessionRuntime` of
    `crates/cli/src/runner.rs` and `TuiRewire` with its callers of `crates/cli/src/repl.rs`.
    Every supervisor instance has its own number; a handle or map is known by the number of
    the supervisor it belongs to. */
module SessionSwap {
  import opened Text

  type Owner = nat

  /** The one-shot handles of a supervisor, each gone once taken. */
  datatype Handle = Handle(
    eventRx: Option<Owner>, commitTx: Option<Owner>, spawnRx: Option<Owner>,
    ipc: Option<Owner>, approvals: Option<Owner>, questions: Option<Owner>)

  /** A supervisor with its own approval handler has no approval map. */
  function NewHandle(id: Owner, ipcApprovals: bool): Handle {
    Handle(Some(id), Some(id), Some(id), Some(id), if ipcApprovals then Some(id) else None, Some(id))
  }

  /** The current supervisor, those told to finish, and what is left of the handle. */
  datatype Runtime = Runtime(current: Owner, finished: seq<Owner>, handle: Option<Handle>, questions: Option<Owner>)

  /** A bridge consumes one event receiver and writes one event log. */
  datatype Bridge = Bridge(rx: Owner, log: Owner, ipc: Option<Owner>, approvals: Option<Owner>,
                           questions: Option<Owner>, commitTx: Option<Owner>)

  /** The shared slots of the terminal side, and every bridge and spawn consumer started. */
  datatype Wires = Wires(
    question: Option<Owner>, approval: Option<Owner>, cancel: Option<Owner>, inbox: Option<Owner>,
    registry: Option<Owner>, bridges: seq<Bridge>, consumers: seq<Option<Owner>>)

  datatype Session = Session(runtime: Runtime, wires: Wires)

  // ----- the swap -----

  function Finish(r: Runtime): Runtime {
    r.(finished := r.finished + [r.current])
  }

  function Install(r: Runtime, id: Owner, ipcApprovals: bool): Runtime {
    Runtime(id, r.finished, Some(NewHandle(id, ipcApprovals).(questions := None)), Some(id))
  }

  /** `new_session`: create first, finish the old one only when that worked. */
  function NewSession(r: Runtime, created: Option<Owner>, ipcApprovals: bool): (Runtime, bool) {
    match created
    case None => (r, false)
    case Some(id) => (Install(Finish(r), id, ipcApprovals), true)
  }

  /** `switch_to`: finish first, then resume. */
  function SwitchTo(r: Runtime, resumed: Option<Owner>, ipcApprovals: bool): (Runtime, bool) {
    match resumed
    case None => (Finish(r), false)
    case Some(id) => (Install(Finish(r), id, ipcApprovals), true)
  }

  class SessionRuntime {
    const ipcApprovals: bool
    var current: Owner
    var finished: seq<Owner>
    var handle: Option<Handle>
    var questionPending: Option<Owner>

    function View(): Runtime
      reads this
    {
      Runtime(current, finished, handle, questionPending)
    }

    constructor (id: Owner, ipcApprovals: bool)
      ensures this.ipcApprovals == ipcApprovals
      ensures View() == Install(Runtime(id, [], None, None), id, ipcApprovals)
    {
      this.ipcApprovals := ipcApprovals;
      current, finished := id, [];
      handle, questionPending := Some(NewHandle(id, ipcApprovals).(questions := None)), Some(id);
    }

    method TakeEventRx() returns (rx: Option<Owner>)
      modifies this`handle
      ensures rx == if old(handle).Some? then old(handle).value.eventRx else None
      ensures handle == if old(handle).Some? then Some(old(handle).value.(eventRx := None)) else None
    {
      if handle.None? {
        return None;
      }
      rx := handle.value.eventRx;
      handle := Some(handle.value.(eventRx := None));
    }

    method TakeCommitTx() returns (tx: Option<Owner>)
      modifies this`handle
      ensures tx == if old(handle).Some? then old(handle).value.commitTx else None
      ensures handle == if old(handle).Some? then Some(old(handle).value.(commitTx := None)) else None
    {
      if handle.None? {
        return None;
      }
      tx := handle.value.commitTx;
      handle := Some(handle.value.(commitTx := None));
    }

    method TakeApprovals() returns (map_: Option<Owner>)
      modifies this`handle
      ensures map_ == if old(handle).Some? then old(handle).value.approvals else None
      ensures handle == if old(handle).Some? then Some(old(handle).value.(approvals := None)) else None
    {
      if handle.None? {
        return None;
      }
      map_ := handle.value.approvals;
      handle := Some(handle.value.(approvals := None));
    }

    method TakeIpc() returns (ipc: Option<Owner>)
      modifies this`handle
      ensures ipc == if old(handle).Some? then old(handle).value.ipc else None
      ensures handle == if old(handle).Some? then Some(old(handle).value.(ipc := None)) else None
    {
      if handle.None? {
        return None;
      }
      ipc := handle.value.ipc;
      handle := Some(handle.value.(ipc := None));
    }

    method TakeSpawnRx() returns (rx: Option<Owner>)
      modifies this`handle
      ensures rx == if old(handle).Some? then old(handle).value.spawnRx else None
      ensures handle == if old(handle).Some? then Some(old(handle).value.(spawnRx := None)) else None
    {
      if handle.None? {
        return None;
      }
      rx := handle.value.spawnRx;
      handle := Some(handle.value.(spawnRx := None));
    }

    /** `finish`. */
    method FinishSession()
      modifies this`finished
      ensures View() == Finish(old(View()))
    {
      finished := finished + [current];
    }

    /** `created` is the new supervisor, or None when it could not be built. */
    method StartNewSession(created: Option<Owner>) returns (ok: bool)
      modifies this
      ensures (View(), ok) == NewSession(old(View()), created, ipcApprovals)
    {
      if created.None? {
        return false;
      }
      finished := finished + [current];
      var h := NewHandle(created.value, ipcApprovals);
      questionPending := h.questions;
      h := h.(questions := None);
      current := created.value;
      handle := Some(h);
      return true;
    }

    method SwitchSession(resumed: Option<Owner>) returns (ok: bool)
      modifies this
      ensures (View(), ok) == SwitchTo(old(View()), resumed, ipcApprovals)
    {
      finished := finished + [current];
      if resumed.None? {
        return false;
      }
      var h := NewHandle(resumed.value, ipcApprovals);
      questionPending := h.questions;
      h := h.(questions := None);
      current := resumed.value;
      handle := Some(h);
      return true;
    }
  }

  // ----- the rewiring -----

  function Drained(h: Handle): Handle {
    h.(eventRx := None, commitTx := None, spawnRx := None, ipc := None, approvals := None)
  }

  /** `TuiRewire::rewire`: nothing changes when the event receiver is gone. */
  function Rewired(s: Session): (Session, bool) {
    var r, w := s.runtime, s.wires;
    if r.handle.None? || r.handle.value.eventRx.None? then (s, false)
    else
      var h := r.handle.value;
      var bridge := Bridge(h.eventRx.value, r.current, h.ipc, h.approvals, r.questions, h.commitTx);
      (Session(r.(handle := Some(Drained(h))),
               Wires(r.questions, h.approvals, Some(r.current), Some(r.current), Some(r.current),
                     w.bridges + [bridge], w.consumers + [h.spawnRx])),
       true)
  }

  class TuiRewire {
    var questionSlot: Option<Owner>
    var approvalSlot: Option<Owner>
    var cancelSlot: Option<Owner>
    var inboxSlot: Option<Owner>
    var registrySlot: Option<Owner>
    var bridgeTask: Option<Bridge>
    var spawnTask: Option<Owner>
    ghost var bridges: seq<Bridge>
    ghost var consumers: seq<Option<Owner>>

    ghost function View(): Wires
      reads this
    {
      Wires(questionSlot, approvalSlot, cancelSlot, inboxSlot, registrySlot, bridges, consumers)
    }

    constructor ()
      ensures View() == Wires(None, None, None, None, None, [], [])
    {
      questionSlot, approvalSlot, cancelSlot, inboxSlot, registrySlot := None, None, None, None, None;
      bridgeTask, spawnTask := None, None;
      bridges, consumers := [], [];
    }

    method Rewire(runtime: SessionRuntime) returns (ok: bool)
      modifies this, runtime
      ensures (Session(runtime.View(), View()), ok) == Rewired(Session(old(runtime.View()), old(View())))
    {
      var rx := runtime.TakeEventRx();
      if rx.None? {
        return false;
      }
      bridgeTask, spawnTask := None, None;
      var commitTx := runtime.TakeCommitTx();
      var approvals := runtime.TakeApprovals();
      var ipc := runtime.TakeIpc();
      var bridge := Bridge(rx.value, runtime.current, ipc, approvals, runtime.questionPending, commitTx);
      bridgeTask := Some(bridge);
      bridges := bridges + [bridge];
      var spawnRx := runtime.TakeSpawnRx();
      spawnTask := spawnRx;
      consumers := consumers + [spawnRx];
      questionSlot := runtime.questionPending;
      approvalSlot := approvals;
      cancelSlot := Some(runtime.current);
      inboxSlot := Some(runtime.current);
      registrySlot := Some(runtime.current);
      return true;
    }
  }

  // ----- the commands -----

  /** A turn leaves the wiring alone. `/new` first writes a memory note. Resuming the session
      one is on does nothing. */
  datatype Command =
    | Turn
    | New(noteFails: bool, created: Option<Owner>)
    | Resume(same: bool, resumed: Option<Owner>)
    | Quit

  /** The loop goes on, was left by the user, or was broken off by an error. */
  datatype Ending = GoesOn | Left | Broken

  function RewireAfter(s: Session, swapped: (Runtime, bool)): Session {
    if swapped.1 then Rewired(Session(swapped.0, s.wires)).0 else s.(runtime := swapped.0)
  }

  /** An error of `/new` goes up through the loop; an error of a switch is only reported. */
  function Do(s: Session, c: Command, ipcApprovals: bool): (Session, Ending) {
    match c
    case Turn => (s, GoesOn)
    case New(noteFails, created) =>
      if noteFails then (s, Broken)
      else
        var swapped := NewSession(s.runtime, created, ipcApprovals);
        (RewireAfter(s, swapped), if swapped.1 then GoesOn else Broken)
    case Resume(same, resumed) =>
      (if same then s else RewireAfter(s, SwitchTo(s.runtime, resumed, ipcApprovals)), GoesOn)
    case Quit => (s.(runtime := Finish(s.runtime)), Left)
  }

  /** The command loop: the session at its end, or behind the commands seen so far. */
  function DoAll(s: Session, cs: seq<Command>, ipcApprovals: bool): (Session, Ending)
    decreases |cs|
  {
    if cs == [] then (s, GoesOn)
    else
      var (next, ending) := Do(s, cs[0], ipcApprovals);
      if ending.GoesOn? then DoAll(next, cs[1..], ipcApprovals) else (next, ending)
  }

  /** The session after the first wiring. */
  function Started(id: Owner, ipcApprovals: bool): Session {
    var wires := Wires(None, None, None, None, None, [], []);
    Rewired(Session(Install(Runtime(id, [], None, None), id, ipcApprovals), wires)).0
  }

  class Repl {
    const runtime: SessionRuntime
    const tui: TuiRewire

    ghost function View(): Session
      reads runtime, tui
    {
      Session(runtime.View(), tui.View())
    }

    constructor (id: Owner, ipcApprovals: bool)
      ensures fresh(runtime) && fresh(tui) && runtime.ipcApprovals == ipcApprovals
      ensures View() == Started(id, ipcApprovals)
    {
      runtime := new SessionRuntime(id, ipcApprovals);
      tui := new TuiRewire();
      new;
      var _ := tui.Rewire(runtime);
    }

    /** False is the error that the callers of `/new` pass on. */
    method NewCommand(noteFails: bool, created: Option<Owner>) returns (ok: bool)
      modifies runtime, tui
      ensures (View(), if ok then GoesOn else Broken) == Do(old(View()), New(noteFails, created), runtime.ipcApprovals)
    {
      if noteFails {
        return false;
      }
      ok := runtime.StartNewSession(created);
      if ok {
        var _ := tui.Rewire(runtime);
      }
    }

    method ResumeCommand(same: bool, resumed: Option<Owner>)
      modifies runtime, tui
      ensures (View(), GoesOn) == Do(old(View()), Resume(same, resumed), runtime.ipcApprovals)
    {
      if same {
        return;
      }
      var ok := runtime.SwitchSession(resumed);
      if ok {
        var _ := tui.Rewire(runtime);
      }
    }

    /** `run_with_tui`, on the commands seen so far. */
    method RunCommands(cs: seq<Command>) returns (ending: Ending)
      modifies runtime, tui
      ensures (View(), ending) == DoAll(old(View()), cs, runtime.ipcApprovals)
    {
      hide Rewired, NewSession, SwitchTo;
      ghost var goal := DoAll(View(), cs, runtime.ipcApprovals);
      assert cs[0..] == cs;
      for i := 0 to |cs|
        invariant DoAll(View(), cs[i..], runtime.ipcApprovals) == goal
      {
        assert cs[i..][0] == cs[i] && cs[i..][1..] == cs[i + 1..];
        match cs[i]
        case Turn =>
        case New(noteFails, created) =>
          var ok := NewCommand(noteFails, created);
          if !ok {
            return Broken;
          }
        case Resume(same, resumed) =>
          ResumeCommand(same, resumed);
        case Quit =>
          runtime.FinishSession();
          return Left;
      }
      return GoesOn;
    }
  }

  // ----- what every run of commands keeps -----

  /** The supervisor a command installs. */
  function Installs(c: Command): seq<Owner> {
    match c
    case New(noteFails, created) => if !noteFails && created.Some? then [created.value] else []
    case Resume(same, resumed) => if !same && resumed.Some? then [resumed.value] else []
    case _ => []
  }

  predicate FailedNew(c: Command) {
    c.New? && (c.noteFails || c.created.None?)
  }

  predicate FailedSwitch(c: Command) {
    c.Resume? && !c.same && c.resumed.None?
  }

  predicate Ends(c: Command) {
    c.Quit? || FailedNew(c)
  }

  /** The supervisors installed until the loop ends. */
  function InstalledBy(cs: seq<Command>): seq<Owner> {
    if cs == [] || Ends(cs[0]) then [] else Installs(cs[0]) + InstalledBy(cs[1..])
  }

  function BridgeFor(id: Owner, ipcApprovals: bool): Bridge {
    Bridge(id, id, Some(id), if ipcApprovals then Some(id) else None, Some(id), Some(id))
  }

  /** Every slot holds a handle of the current supervisor, whose handle is drained, and the
      bridges belong to `owners`, one each and in order, the last being the current one. */
  predicate WiredTo(s: Session, owners: seq<Owner>, ipcApprovals: bool) {
    var id := s.runtime.current;
    && owners != [] && owners[|owners| - 1] == id
    && s.runtime.handle == Some(Handle(None, None, None, None, None, None)) && s.runtime.questions == Some(id)
    && s.wires.question == Some(id) && s.wires.approval == (if ipcApprovals then Some(id) else None)
    && s.wires.cancel == Some(id) && s.wires.inbox == Some(id) && s.wires.registry == Some(id)
    && |s.wires.bridges| == |s.wires.consumers| == |owners|
    && forall k :: 0 <= k < |owners| ==>
         s.wires.bridges[k] == BridgeFor(owners[k], ipcApprovals) && s.wires.consumers[k] == Some(owners[k])
  }

  lemma StartIsWired(id: Owner, ipcApprovals: bool)
    ensures WiredTo(Started(id, ipcApprovals), [id], ipcApprovals)
  {
  }

  lemma CommandKeepsWired(s: Session, owners: seq<Owner>, c: Command, ipcApprovals: bool)
    requires WiredTo(s, owners, ipcApprovals)
    ensures WiredTo(Do(s, c, ipcApprovals).0, owners + Installs(c), ipcApprovals)
  {
    assert owners + [] == owners;
  }

  /** The loop ends with the user leaving or with a failed `/new`, and installs nothing then. */
  lemma EndingIs(s: Session, c: Command, ipcApprovals: bool)
    ensures Do(s, c, ipcApprovals).1 == if c.Quit? then Left else if FailedNew(c) then Broken else GoesOn
    ensures Ends(c) <==> Do(s, c, ipcApprovals).1 != GoesOn
    ensures Ends(c) ==> Installs(c) == []
  {
  }

  lemma {:induction false} CommandsKeepWired(s: Session, owners: seq<Owner>, cs: seq<Command>, ipcApprovals: bool)
    requires WiredTo(s, owners, ipcApprovals)
    ensures WiredTo(DoAll(s, cs, ipcApprovals).0, owners + InstalledBy(cs), ipcApprovals)
    decreases |cs|
  {
    hide WiredTo, Do, Installs, Ends;
    assert owners + [] == owners;
    if cs != [] {
      CommandKeepsWired(s, owners, cs[0], ipcApprovals);
      EndingIs(s, cs[0], ipcApprovals);
      if !Ends(cs[0]) {
        CommandsKeepWired(Do(s, cs[0], ipcApprovals).0, owners + Installs(cs[0]), cs[1..], ipcApprovals);
        Regroup(owners, Installs(cs[0]), InstalledBy(cs[1..]));
      }
    }
  }

  lemma Regroup(a: seq<Owner>, b: seq<Owner>, c: seq<Owner>)
    ensures (a + b) + c == a + (b + c)
  {
  }

  /** Over any run of turns, `/new` and switches, succeeding or not, and at its end: every slot
      points at the current supervisor, and each supervisor that was installed has exactly one
      bridge, which reads its events and writes its log. */
  lemma AlwaysWired(id: Owner, cs: seq<Command>, ipcApprovals: bool)
    ensures WiredTo(DoAll(Started(id, ipcApprovals), cs, ipcApprovals).0, [id] + InstalledBy(cs), ipcApprovals)
  {
    StartIsWired(id, ipcApprovals);
    CommandsKeepWired(Started(id, ipcApprovals), [id], cs, ipcApprovals);
  }

  /** With distinct supervisors no event receiver is consumed twice. */
  lemma OneBridgePerReceiver(id: Owner, cs: seq<Command>, ipcApprovals: bool, j: nat, k: nat)
    requires var owners := [id] + InstalledBy(cs); forall a, b :: 0 <= a < b < |owners| ==> owners[a] != owners[b]
    requires j < |[id] + InstalledBy(cs)| && k < |[id] + InstalledBy(cs)|
    ensures var bridges := DoAll(Started(id, ipcApprovals), cs, ipcApprovals).0.wires.bridges;
            && |bridges| == |[id] + InstalledBy(cs)|
            && (bridges[j].rx == bridges[k].rx <==> j == k)
  {
    hide DoAll, Started, InstalledBy;
    AlwaysWired(id, cs, ipcApprovals);
    var owners := [id] + InstalledBy(cs);
    var bridges := DoAll(Started(id, ipcApprovals), cs, ipcApprovals).0.wires.bridges;
    assert bridges[j] == BridgeFor(owners[j], ipcApprovals) && bridges[k] == BridgeFor(owners[k], ipcApprovals);
    if j != k {
      var a, b := if j < k then j else k, if j < k then k else j;
      assert owners[a] != owners[b];
    }
  }

  /** The current supervisor has not been told to finish. */
  predicate Live(s: Session) {
    s.runtime.current !in s.runtime.finished
  }

  /** A fresh supervisor: none of those that went before. */
  predicate Fresh(s: Session, c: Command) {
    forall id :: id in Installs(c) ==> id != s.runtime.current && id !in s.runtime.finished
  }

  /** A failed `/new` changes nothing and ends the loop; a failed switch changes no slot and the
      loop goes on, but the session one is still on has been finished. */
  lemma WhenCommandsFail(s: Session, c: Command, ipcApprovals: bool)
    ensures FailedNew(c) ==> Do(s, c, ipcApprovals) == (s, Broken)
    ensures FailedSwitch(c) ==>
      Do(s, c, ipcApprovals)
      == (s.(runtime := s.runtime.(finished := s.runtime.finished + [s.runtime.current])), GoesOn)
  {
  }

  /** The loop goes on exactly while nobody quits and no `/new` fails. */
  lemma {:induction false} GoesOnWhile(s: Session, cs: seq<Command>, ipcApprovals: bool)
    ensures DoAll(s, cs, ipcApprovals).1 == GoesOn <==> forall k :: 0 <= k < |cs| ==> !Ends(cs[k])
    decreases |cs|
  {
    hide Do, Ends;
    if cs != [] {
      EndingIs(s, cs[0], ipcApprovals);
      GoesOnWhile(Do(s, cs[0], ipcApprovals).0, cs[1..], ipcApprovals);
      assert forall k :: 0 < k < |cs| ==> cs[k] == cs[1..][k - 1];
      assert forall k :: 0 <= k < |cs[1..]| ==> cs[1..][k] == cs[k + 1];
    }
  }

  /** It ends at the first of these, whatever would have come behind: with the session finished
      when the user quits, and with slots and runtime as they were when a `/new` fails. */
  lemma {:induction false} EndsAtTheFirst(s: Session, cs: seq<Command>, k: nat, ipcApprovals: bool)
    requires k < |cs| && Ends(cs[k]) && forall j :: 0 <= j < k ==> !Ends(cs[j])
    ensures
      var before := DoAll(s, cs[..k], ipcApprovals).0;
      DoAll(s, cs, ipcApprovals)
      == if cs[k].Quit? then (before.(runtime := Finish(before.runtime)), Left) else (before, Broken)
    decreases |cs|
  {
    hide Rewired, NewSession, SwitchTo;
    EndingIs(s, cs[0], ipcApprovals);
    if k > 0 {
      EndsAtTheFirst(Do(s, cs[0], ipcApprovals).0, cs[1..], k - 1, ipcApprovals);
      assert cs[..k][0] == cs[0] && cs[..k][1..] == cs[1..][..k - 1];
    } else {
      WhenCommandsFail(s, cs[0], ipcApprovals);
    }
  }

  /** A command that installs leads to a live session, a failed switch or quitting to one that
      is not, and every other command leaves it as it was. */
  lemma LiveAfter(s: Session, owners: seq<Owner>, c: Command, ipcApprovals: bool)
    requires WiredTo(s, owners, ipcApprovals) && Fresh(s, c)
    ensures Live(Do(s, c, ipcApprovals).0) <==> Installs(c) != [] || (Live(s) && !FailedSwitch(c) && !c.Quit?)
  {
  }

  /** The last switch before the loop ended failed, and nothing was installed after it. */
  predicate LeftStale(cs: seq<Command>) {
    exists k :: 0 <= k < |cs| && FailedSwitch(cs[k]) && NothingFrom(cs, k)
  }

  /** The loop reaches command `k` and installs nothing from there on. */
  predicate NothingFrom(cs: seq<Command>, k: nat)
    requires k <= |cs|
  {
    (forall j :: 0 <= j < k ==> !Ends(cs[j])) && InstalledBy(cs[k..]) == []
  }

  lemma NothingFromNext(cs: seq<Command>, k: nat)
    requires cs != [] && k < |cs|
    ensures NothingFrom(cs, k + 1) <==> !Ends(cs[0]) && NothingFrom(cs[1..], k)
  {
    hide Ends;
    var rest := cs[1..];
    assert rest[k..] == cs[k + 1..];
    assert forall j :: 0 <= j < k ==> rest[j] == cs[j + 1];
    if NothingFrom(rest, k) && !Ends(cs[0]) {
      assert forall j :: 0 < j < k + 1 ==> cs[j] == rest[j - 1];
    }
  }

  lemma StaleNext(cs: seq<Command>)
    requires cs != [] && !Ends(cs[0])
    ensures LeftStale(cs) <==> LeftStale(cs[1..]) || (FailedSwitch(cs[0]) && InstalledBy(cs[1..]) == [])
  {
    hide Ends, NothingFrom, FailedSwitch;
    var rest := cs[1..];
    assert NothingFrom(cs, 0) && FailedSwitch(cs[0]) <==> FailedSwitch(cs[0]) && InstalledBy(rest) == [] by {
      SwitchInstallsNothing(cs);
    }
    if k :| 0 <= k < |rest| && FailedSwitch(rest[k]) && NothingFrom(rest, k) {
      NothingFromNext(cs, k);
      assert FailedSwitch(cs[k + 1]) && NothingFrom(cs, k + 1);
    }
    if k :| 0 <= k < |cs| && FailedSwitch(cs[k]) && NothingFrom(cs, k) && k > 0 {
      NothingFromNext(cs, k - 1);
      assert FailedSwitch(rest[k - 1]) && NothingFrom(rest, k - 1);
    }
  }

  lemma SwitchInstallsNothing(cs: seq<Command>)
    requires cs != [] && !Ends(cs[0])
    ensures FailedSwitch(cs[0]) ==> (NothingFrom(cs, 0) <==> InstalledBy(cs[1..]) == [])
  {
    assert cs[0..] == cs && [] + InstalledBy(cs[1..]) == InstalledBy(cs[1..]);
  }

  predicate Apart(owners: seq<Owner>) {
    forall j, k :: 0 <= j < k < |owners| ==> owners[j] != owners[k]
  }

  predicate FinishedKnown(s: Session, owners: seq<Owner>) {
    forall id :: id in s.runtime.finished ==> id in owners
  }

  lemma FinishedStaysKnown(s: Session, owners: seq<Owner>, c: Command, ipcApprovals: bool)
    requires WiredTo(s, owners, ipcApprovals) && FinishedKnown(s, owners)
    ensures FinishedKnown(Do(s, c, ipcApprovals).0, owners + Installs(c))
  {
    assert owners[|owners| - 1] == s.runtime.current;
  }

  lemma FreshWhenApart(
    s: Session, owners: seq<Owner>, c: Command, later: seq<Owner>, ipcApprovals: bool)
    requires WiredTo(s, owners, ipcApprovals) && FinishedKnown(s, owners) && Apart(owners + (Installs(c) + later))
    ensures Fresh(s, c)
  {
    var all := owners + (Installs(c) + later);
    if Installs(c) != [] {
      var n := |owners|;
      assert all[n] == Installs(c)[0];
      assert forall k :: 0 <= k < n ==> all[k] == owners[k] && all[k] != all[n];
    }
  }

  lemma {:induction false} LiveRun(s: Session, owners: seq<Owner>, cs: seq<Command>, ipcApprovals: bool)
    requires WiredTo(s, owners, ipcApprovals) && FinishedKnown(s, owners) && Apart(owners + InstalledBy(cs))
    ensures
      var (s', ending) := DoAll(s, cs, ipcApprovals);
      Live(s') <==> ending != Left && !LeftStale(cs) && (Live(s) || InstalledBy(cs) != [])
    decreases |cs|
  {
    hide WiredTo, FinishedKnown, Apart, Live, Fresh, Ends, Do, LeftStale;
    if cs == [] {
      NeverStale(cs);
    } else {
      EndingIs(s, cs[0], ipcApprovals);
      if Ends(cs[0]) {
        NeverStale(cs);
        assert owners + [] == owners + ([] + []);
        FreshWhenApart(s, owners, cs[0], [], ipcApprovals);
        LiveAfter(s, owners, cs[0], ipcApprovals);
      } else {
        var next := Do(s, cs[0], ipcApprovals).0;
        FreshWhenApart(s, owners, cs[0], InstalledBy(cs[1..]), ipcApprovals);
        LiveAfter(s, owners, cs[0], ipcApprovals);
        CommandKeepsWired(s, owners, cs[0], ipcApprovals);
        FinishedStaysKnown(s, owners, cs[0], ipcApprovals);
        Regroup(owners, Installs(cs[0]), InstalledBy(cs[1..]));
        LiveRun(next, owners + Installs(cs[0]), cs[1..], ipcApprovals);
        StaleNext(cs);
      }
    }
  }

  lemma NeverStale(cs: seq<Command>)
    requires cs == [] || Ends(cs[0])
    ensures !LeftStale(cs) && InstalledBy(cs) == []
  {
  }

  /** Over any run with fresh supervisors, the session one is on at the end has been finished
      exactly when the user quit or the last swap was a switch that failed. In particular a
      failed `/new` never finishes it, though the loop is over. */
  lemma LiveAtTheEnd(id: Owner, cs: seq<Command>, ipcApprovals: bool)
    requires Apart([id] + InstalledBy(cs))
    ensures
      var (s, ending) := DoAll(Started(id, ipcApprovals), cs, ipcApprovals);
      Live(s) <==> ending != Left && !LeftStale(cs)
  {
    hide DoAll, InstalledBy, LeftStale, Apart;
    StartIsWired(id, ipcApprovals);
    LiveRun(Started(id, ipcApprovals), [id], cs, ipcApprovals);
  }

  // ----- which supervisors are told to finish -----

  /** A `/new` that installs, a switch to another session and quitting finish the current one. */
  predicate Leaves(c: Command) {
    match c
    case Turn => false
    case New(noteFails, created) => !noteFails && created.Some?
    case Resume(same, _) => !same
    case Quit => true
  }

  /** The supervisors told to finish, in order: the one that was current at each command that
      leaves it, as far as the loop gets. */
  function LeftBehind(current: Owner, cs: seq<Command>): seq<Owner>
    decreases |cs|
  {
    if cs == [] then []
    else
      var next := if Installs(cs[0]) == [] then current else Installs(cs[0])[0];
      (if Leaves(cs[0]) then [current] else []) + (if Ends(cs[0]) then [] else LeftBehind(next, cs[1..]))
  }

  lemma CommandFinishes(s: Session, c: Command, ipcApprovals: bool)
    ensures
      var r := Do(s, c, ipcApprovals).0.runtime;
      && r.finished == s.runtime.finished + (if Leaves(c) then [s.runtime.current] else [])
      && r.current == if Installs(c) == [] then s.runtime.current else Installs(c)[0]
  {
    assert s.runtime.finished + [] == s.runtime.finished;
  }

  lemma {:induction false} FinishedFrom(s: Session, cs: seq<Command>, ipcApprovals: bool)
    ensures DoAll(s, cs, ipcApprovals).0.runtime.finished == s.runtime.finished + LeftBehind(s.runtime.current, cs)
    decreases |cs|
  {
    hide Do, Installs, Ends, Leaves;
    if cs != [] {
      CommandFinishes(s, cs[0], ipcApprovals);
      EndingIs(s, cs[0], ipcApprovals);
      FinishedFrom(Do(s, cs[0], ipcApprovals).0, cs[1..], ipcApprovals);
    }
  }

  /** Over any run exactly these have been told to finish. */
  lemma FinishedExactly(id: Owner, cs: seq<Command>, ipcApprovals: bool)
    ensures DoAll(Started(id, ipcApprovals), cs, ipcApprovals).0.runtime.finished == LeftBehind(id, cs)
  {
    hide DoAll, LeftBehind;
    FinishedFrom(Started(id, ipcApprovals), cs, ipcApprovals);
    StartIsWired(id, ipcApprovals);
    assert [] + LeftBehind(id, cs) == LeftBehind(id, cs);
  }

  lemma LeavesWhenInstalling(c: Command)
    ensures |Installs(c)| <= 1 && (Installs(c) != [] ==> Leaves(c)) && (Ends(c) ==> Installs(c) == [])
  {
  }

  /** All owners but possibly the last are left behind, and nobody else is. */
  predicate LeftAreOwners(owners: seq<Owner>, left: seq<Owner>) {
    && (forall k :: 0 <= k < |owners| - 1 ==> owners[k] in left)
    && (forall k :: 0 <= k < |left| ==> left[k] in owners)
  }

  lemma LeavingInstalls(o: Owner, owners: seq<Owner>, left: seq<Owner>)
    requires LeftAreOwners(owners, left)
    ensures LeftAreOwners([o] + owners, [o] + left)
    ensures o in owners ==> LeftAreOwners(owners, [o] + left)
  {
    assert forall k :: 0 <= k < |left| ==> ([o] + left)[k + 1] == left[k];
    assert forall k :: 0 <= k < |owners| ==> ([o] + owners)[k + 1] == owners[k];
    assert ([o] + left)[0] == o && ([o] + owners)[0] == o;
  }

  lemma {:induction false} NoneLeftRunning(current: Owner, cs: seq<Command>)
    ensures LeftAreOwners([current] + InstalledBy(cs), LeftBehind(current, cs))
    decreases |cs|
  {
    hide Installs, Leaves, Ends, LeftAreOwners;
    NobodyLeft(current);
    if cs != [] {
      LeavesWhenInstalling(cs[0]);
      var new_ := Installs(cs[0]);
      var rest := InstalledBy(cs[1..]);
      if Ends(cs[0]) {
        LeavingInstalls(current, [current], []);
        assert LeftBehind(current, cs) == if Leaves(cs[0]) then [current] + [] else [];
      } else if new_ == [] {
        NoneLeftRunning(current, cs[1..]);
        LeavingInstalls(current, [current] + rest, LeftBehind(current, cs[1..]));
        assert [] + rest == rest && [] + LeftBehind(current, cs[1..]) == LeftBehind(current, cs[1..]);
      } else {
        NoneLeftRunning(new_[0], cs[1..]);
        LeavingInstalls(current, [new_[0]] + rest, LeftBehind(new_[0], cs[1..]));
        assert new_ == [new_[0]];
      }
    }
  }

  lemma NobodyLeft(current: Owner)
    ensures LeftAreOwners([current], []) && [current] + [] == [current]
  {
  }

  /** No supervisor that was replaced is left running, and none is finished that was not installed:
      apart from the current one, the finished supervisors are those installed. */
  lemma OthersAreFinished(id: Owner, cs: seq<Command>, ipcApprovals: bool)
    ensures
      var r := DoAll(Started(id, ipcApprovals), cs, ipcApprovals).0.runtime;
      forall o :: o != r.current ==> (o in r.finished <==> o in [id] + InstalledBy(cs))
  {
    hide DoAll, LeftBehind, InstalledBy;
    FinishedExactly(id, cs, ipcApprovals);
    NoneLeftRunning(id, cs);
    AlwaysWired(id, cs, ipcApprovals);
  }

  /** Rewiring twice without a swap in between fails and leaves every slot as it is. */
  lemma SecondRewireFails(s: Session)
    ensures var (s', ok) := Rewired(s); Rewired(s') == (s', false)
  {
  }
}
