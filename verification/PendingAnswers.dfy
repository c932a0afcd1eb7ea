/** Pending questions and approvals: `dispatch_question_answer`, `dispatch_tool_approval` and
    `submit_suggested_answer` of `crates/cli/src/runner.rs`, used concurrently by the command
    loop, the side tasks and the IPC consumer. Every operation on a map happens under its
    lock, so a run is an interleaving of whole operations. */
module PendingAnswers {
  import opened Text
  import S = SessionSwap

  /** Each ask has its own one-shot channel; each supervisor has its own map from the id of
      the ask to the sending end. */
  type Channel = nat
  type Pending = map<string, Channel>

  // ----- one operation on one map -----

  /** Take the sender out; the send succeeds when the asker still listens. */
  function Dispatch(m: Pending, id: string, listening: set<Channel>): (Pending, Option<Channel>) {
    if id !in m then (m, None)
    else (m - {id}, if m[id] in listening then Some(m[id]) else None)
  }

  /** The suggested answer goes to the only pending question, if there is only one. */
  function Suggest(m: Pending, listening: set<Channel>): (Pending, Option<Channel>) {
    if |m| != 1 then (m, None) else Dispatch(m, SoleKey(m), listening)
  }

  function SoleKey(m: Pending): (id: string)
    requires |m| == 1
    ensures m.Keys == {id}
  {
    KeyIsUnique(m.Keys);
    var id :| id in m.Keys;
    id
  }

  lemma KeyIsUnique(keys: set<string>)
    requires |keys| == 1
    ensures forall a, b :: a in keys && b in keys ==> a == b
    ensures forall a :: a in keys ==> keys == {a}
  {
    forall a, b | a in keys && b in keys ensures a == b {
      assert |keys - {a}| == 0;
      assert b !in keys - {a};
    }
  }

  class PendingMap {
    var senders: Pending

    constructor ()
      ensures senders == map[]
    {
      senders := map[];
    }

    method Remove(id: string) returns (tx: Option<Channel>)
      modifies this
      ensures tx == if id in old(senders) then Some(old(senders)[id]) else None
      ensures senders == old(senders) - {id}
    {
      if id !in senders {
        assert senders - {id} == senders;
        return None;
      }
      tx := Some(senders[id]);
      senders := senders - {id};
    }
  }

  /** `dispatch_question_answer` and `dispatch_tool_approval`; the channel sent to, if any. */
  method DispatchAnswer(qp: PendingMap?, id: string, listening: set<Channel>) returns (ok: bool, sent: Option<Channel>)
    modifies qp
    ensures qp == null ==> !ok && sent.None?
    ensures qp != null ==> (qp.senders, sent) == Dispatch(old(qp.senders), id, listening)
    ensures ok <==> sent.Some?
  {
    if qp == null {
      return false, None;
    }
    var tx := qp.Remove(id);
    if tx.None? {
      assert qp.senders == old(qp.senders);
      return false, None;
    }
    if tx.value in listening {
      return true, tx;
    }
    return false, None;
  }

  method SubmitSuggestedAnswer(qp: PendingMap?, listening: set<Channel>) returns (ok: bool, sent: Option<Channel>)
    modifies qp
    ensures qp == null ==> !ok && sent.None?
    ensures qp != null ==> (qp.senders, sent) == Suggest(old(qp.senders), listening)
    ensures ok <==> sent.Some?
  {
    if qp == null {
      return false, None;
    }
    if |qp.senders| != 1 {
      return false, None;
    }
    ok, sent := DispatchAnswer(qp, SoleKey(qp.senders), listening);
  }

  /** The suggested answer resolves something only when exactly one question was pending;
      then it resolves that one and nothing stays pending. */
  lemma SuggestNeedsSole(m: Pending, listening: set<Channel>)
    ensures var (m', sent) := Suggest(m, listening);
            && (sent.Some? <==> |m| == 1 && m[SoleKey(m)] in listening)
            && (sent.Some? ==> sent.value == m[SoleKey(m)])
            && m' == (if |m| == 1 then map[] else m)
  {
  }

  // ----- interleavings -----

  /** The maps of all supervisors, the askers still waiting, the channels in use so far, and
      the channels some dispatcher reported success for, in order. A channel that got its
      answer may go on listening: it takes nothing from it that it cannot be sent to twice. */
  datatype World = World(
    maps: map<S.Owner, Pending>, listening: set<Channel>, used: set<Channel>, delivered: seq<Channel>)

  /** A dispatcher may hold the map of any supervisor, current or already replaced. Asking
      creates a channel; an asker may also give up waiting. */
  datatype Act =
    | Ask(owner: S.Owner, id: string, channel: Channel)
    | GiveUp(channel: Channel)
    | Answer(target: Option<S.Owner>, id: string)
    | Accept(target: Option<S.Owner>)

  function MapOf(w: World, owner: S.Owner): Pending {
    if owner in w.maps then w.maps[owner] else map[]
  }

  function Settle(w: World, owner: S.Owner, r: (Pending, Option<Channel>)): World {
    w.(maps := w.maps[owner := r.0],
       delivered := match r.1 case None => w.delivered case Some(c) => w.delivered + [c])
  }

  /** Channels are created by asking: an ask on a channel in use does not happen. */
  function Happens(w: World, a: Act): World {
    match a
    case Ask(owner, id, channel) =>
      if channel in w.used then w
      else
        var maps := w.maps[owner := MapOf(w, owner)[id := channel]];
        World(maps, w.listening + {channel}, w.used + {channel}, w.delivered)
    case GiveUp(channel) => w.(listening := w.listening - {channel})
    case Answer(None, _) => w
    case Answer(Some(owner), id) => Settle(w, owner, Dispatch(MapOf(w, owner), id, w.listening))
    case Accept(None) => w
    case Accept(Some(owner)) => Settle(w, owner, Suggest(MapOf(w, owner), w.listening))
  }

  function AllHappen(w: World, acts: seq<Act>): World
    decreases |acts|
  {
    if acts == [] then w else AllHappen(Happens(w, acts[0]), acts[1..])
  }

  const QUIET := World(map[], {}, {}, [])

  ghost predicate Holds(w: World, owner: S.Owner, id: string, c: Channel) {
    owner in w.maps && id in w.maps[owner] && w.maps[owner][id] == c
  }

  /** Every channel is in use before it is pending, pends in at most one place, and no longer
      pends once it was delivered to; nothing was delivered to twice. */
  ghost predicate OnceOnly(w: World) {
    && (forall o, id, c :: Holds(w, o, id, c) ==> c in w.used && c !in w.delivered)
    && (forall o1, id1, o2, id2, c :: Holds(w, o1, id1, c) && Holds(w, o2, id2, c) ==> o1 == o2 && id1 == id2)
    && (forall c :: c in w.delivered ==> c in w.used)
    && (forall i, j :: 0 <= i < j < |w.delivered| ==> w.delivered[i] != w.delivered[j])
  }

  lemma AskOnce(w: World, owner: S.Owner, id: string, channel: Channel)
    requires OnceOnly(w)
    ensures OnceOnly(Happens(w, Ask(owner, id, channel)))
  {
    var v := Happens(w, Ask(owner, id, channel));
    assert forall o, i, c :: Holds(v, o, i, c) ==> Holds(w, o, i, c) || (c == channel && o == owner && i == id);
  }

  /** Removing the one entry of a channel before sending to it. */
  lemma DispatchOnce(w: World, owner: S.Owner, id: string)
    requires OnceOnly(w)
    ensures OnceOnly(Settle(w, owner, Dispatch(MapOf(w, owner), id, w.listening)))
  {
    var m := MapOf(w, owner);
    var r := Dispatch(m, id, w.listening);
    var v := Settle(w, owner, r);
    assert forall o, i, c :: Holds(v, o, i, c) ==> Holds(w, o, i, c) && (o == owner ==> i != id);
    if r.1.Some? {
      assert Holds(w, owner, id, m[id]);
      assert forall o, i :: !Holds(v, o, i, m[id]);
    }
  }

  lemma HappensOnce(w: World, a: Act)
    requires OnceOnly(w)
    ensures OnceOnly(Happens(w, a))
  {
    hide OnceOnly, Dispatch;
    match a
    case Ask(owner, id, channel) => AskOnce(w, owner, id, channel);
    case GiveUp(channel) => GiveUpOnce(w, channel);
    case Answer(None, _) =>
    case Answer(Some(owner), id) => DispatchOnce(w, owner, id);
    case Accept(None) =>
    case Accept(Some(owner)) =>
      if |MapOf(w, owner)| == 1 {
        DispatchOnce(w, owner, SoleKey(MapOf(w, owner)));
      } else {
        IdleOnce(w, owner);
      }
  }

  lemma GiveUpOnce(w: World, channel: Channel)
    requires OnceOnly(w)
    ensures OnceOnly(Happens(w, GiveUp(channel)))
  {
    var v := Happens(w, GiveUp(channel));
    assert forall o, i, c :: Holds(v, o, i, c) <==> Holds(w, o, i, c);
  }

  lemma IdleOnce(w: World, owner: S.Owner)
    requires OnceOnly(w)
    ensures OnceOnly(Settle(w, owner, (MapOf(w, owner), None)))
  {
    var v := Settle(w, owner, (MapOf(w, owner), None));
    assert forall o, i, c :: Holds(v, o, i, c) <==> Holds(w, o, i, c);
  }

  lemma {:induction false} AllHappenOnce(w: World, acts: seq<Act>)
    requires OnceOnly(w)
    ensures OnceOnly(AllHappen(w, acts))
    decreases |acts|
  {
    hide OnceOnly, Happens;
    if acts != [] {
      HappensOnce(w, acts[0]);
      AllHappenOnce(Happens(w, acts[0]), acts[1..]);
    }
  }

  /** Over every interleaving of asks, withdrawals and competing dispatchers, on the maps of
      current and replaced supervisors alike, each ask is answered at most once and at most
      one dispatcher reports success for it. */
  lemma AnsweredAtMostOnce(acts: seq<Act>)
    ensures var w := AllHappen(QUIET, acts);
            && (forall i, j :: 0 <= i < j < |w.delivered| ==> w.delivered[i] != w.delivered[j])
            && (forall o, id, c :: Holds(w, o, id, c) ==> c !in w.delivered)
  {
    AllHappenOnce(QUIET, acts);
  }

  /** The first dispatcher that reaches a pending ask takes it: it succeeds exactly when the
      asker still waits, and any later dispatch for the same id in that map fails. */
  lemma FirstDispatchWins(w: World, owner: S.Owner, id: string, c: Channel)
    requires Holds(w, owner, id, c)
    ensures var v := Happens(w, Answer(Some(owner), id));
            && v.delivered == (if c in w.listening then w.delivered + [c] else w.delivered)
            && Happens(v, Answer(Some(owner), id)) == v
  {
    var v := Happens(w, Answer(Some(owner), id));
    assert v.maps[owner := v.maps[owner]] == v.maps;
    assert id !in v.maps[owner];
  }

  /** Asking adds one entry, or replaces the one under the same id; answering takes the entry of
      that id, and accepting the only one. Every other entry of every map stays. */
  lemma EntriesAfter(w: World, a: Act, o: S.Owner, id: string, c: Channel)
    ensures
      Holds(Happens(w, a), o, id, c) <==>
        match a
        case Ask(owner, i, channel) =>
          if channel !in w.used && owner == o && i == id then c == channel else Holds(w, o, id, c)
        case GiveUp(_) => Holds(w, o, id, c)
        case Answer(target, i) => Holds(w, o, id, c) && !(target == Some(o) && i == id)
        case Accept(target) => Holds(w, o, id, c) && !(target == Some(o) && |MapOf(w, o)| == 1)
  {
  }

  /** Nothing is delivered where nothing is pending; who listens changes by asking and giving up. */
  lemma DeliveredOnlyPending(w: World, a: Act)
    ensures
      var v := Happens(w, a);
      && (v.delivered == w.delivered
          || exists o, id, c :: Holds(w, o, id, c) && c in w.listening && v.delivered == w.delivered + [c])
      && v.used == (if a.Ask? then w.used + {a.channel} else w.used)
      && (forall c :: c in v.listening <==>
            if a.Ask? && c == a.channel && c !in w.used then true
            else c in w.listening && !(a.GiveUp? && c == a.channel))
  {
    match a
    case Ask(_, _, _) =>
    case GiveUp(_) =>
    case Answer(None, _) =>
    case Answer(Some(owner), id) =>
      var m := MapOf(w, owner);
      if id in m && m[id] in w.listening {
        assert Holds(w, owner, id, m[id]);
      }
    case Accept(None) =>
    case Accept(Some(owner)) =>
      var m := MapOf(w, owner);
      if |m| == 1 && m[SoleKey(m)] in w.listening {
        assert Holds(w, owner, SoleKey(m), m[SoleKey(m)]);
      }
  }

  /** An ask that is answered before its asker gives up gets its answer, and only then. */
  lemma AskedIsAnswered(w: World, owner: S.Owner, id: string, channel: Channel)
    requires channel !in w.used
    ensures
      var asked := Happens(w, Ask(owner, id, channel));
      && Happens(asked, Answer(Some(owner), id)).delivered == w.delivered + [channel]
      && Happens(Happens(asked, GiveUp(channel)), Answer(Some(owner), id)).delivered == w.delivered
  {
    var asked := Happens(w, Ask(owner, id, channel));
    FirstDispatchWins(asked, owner, id, channel);
    FirstDispatchWins(Happens(asked, GiveUp(channel)), owner, id, channel);
  }

  /** Together with the wiring of the slots: an answer sent through the question slot between
      two commands reaches a question pending with the current supervisor. */
  lemma SlotReachesCurrent(
    w: World, s: S.Session, owners: seq<S.Owner>, ipcApprovals: bool, id: string, c: Channel)
    requires S.WiredTo(s, owners, ipcApprovals)
    requires Holds(w, s.runtime.current, id, c) && c in w.listening
    ensures Happens(w, Answer(s.wires.question, id)).delivered == w.delivered + [c]
  {
    FirstDispatchWins(w, s.runtime.current, id, c);
  }
}
