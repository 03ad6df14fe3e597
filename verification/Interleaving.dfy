/**
 Concurrent DecryptPacket calls (pkg/crypto/ratchet.go:120-203). Calls share the manager's read lock, so
 several can be between Check and CheckAndAdd at once; RotateKeys and Close take the write lock, so they
 run only when no call is in progress. Each critical section is one atomic action.
 */
module Interleaving {
  import opened Bytes
  import opened Primitives
  import opened Ratchet
  import opened Replay
  import opened Results
  import opened Wire

  type StateId = nat
  type CallId = nat

  type Outcome = Result<(Slot, uint64, Packet), SessionError>

  /** Where a call is; `atCheck` remembers what an uninterrupted call would have returned at the Check. */
  datatype Stage = Routed | Checked(atCheck: Outcome) | Opened(plaintext: seq<byte>)

  datatype Call = Call(raw: seq<byte>, now: int, frame: DirectFrame, slot: Slot, target: StateId, stage: Stage)

  datatype Delivery = Delivery(target: StateId, key: Key, frame: DirectFrame, plaintext: seq<byte>)

  datatype World = World(
    states: map<StateId, Receiver>,
    active: Option<StateId>,
    previous: Option<StateId>,
    closed: bool,
    calls: map<CallId, Call>,
    delivered: seq<Delivery>)

  datatype Action =
    | Begin(call: CallId, raw: seq<byte>, now: int)
    | Check(call: CallId)
    | Open(call: CallId)
    | Commit(call: CallId)
    | RotateTo(newState: Option<StateId>, receiver: Receiver)
    | Close

  function Lookup(w: World, id: Option<StateId>): Option<Receiver> {
    if id.Some? && id.value in w.states then Some(w.states[id.value]) else None
  }

  function View(w: World): Receivers {
    Receivers(Lookup(w, w.active), Lookup(w, w.previous), w.closed)
  }

  function SlotId(w: World, slot: Slot): Option<StateId> {
    if slot == Active then w.active else w.previous
  }

  function Return(w: World, call: CallId): World {
    w.(calls := w.calls - {call})
  }

  function Wiped(states: map<StateId, Receiver>, id: Option<StateId>): map<StateId, Receiver> {
    if id.Some? && id.value in states then states[id.value := states[id.value].(recvKey := ZeroKey())] else states
  }

  ghost function BeginCall(w: World, call: CallId, raw: seq<byte>, now: int): World {
    match ParseFrame(raw)
    case Err(_) => w
    case Ok(f) =>
      if w.closed || View(w).active.None? then w else
      match Route(View(w), f, now)
      case None => w
      case Some(slot) => w.(calls := w.calls[call := Call(raw, now, f, slot, SlotId(w, slot).value, Routed)])
  }

  ghost function CheckCall(s: Suite, w: World, call: CallId): World
    requires call in w.calls && w.calls[call].target in w.states
  {
    var c := w.calls[call];
    if Admits(w.states[c.target].accepted, c.frame.counter)
    then w.(calls := w.calls[call := c.(stage := Checked(Decrypt(s, View(w), c.raw, c.now)))])
    else Return(w, call)
  }

  function OpenCall(s: Suite, w: World, call: CallId): World
    requires call in w.calls && w.calls[call].target in w.states
  {
    var c := w.calls[call];
    match OpenFrame(s, w.states[c.target].recvKey, c.frame)
    case None => Return(w, call)
    case Some(plaintext) => w.(calls := w.calls[call := c.(stage := Opened(plaintext))])
  }

  function Delivered(w: World, c: Call): World
    requires c.target in w.states && c.stage.Opened?
  {
    var r := w.states[c.target];
    w.(states := w.states[c.target := r.(accepted := r.accepted + {c.frame.counter})],
       delivered := w.delivered + [Delivery(c.target, r.recvKey, c.frame, c.stage.plaintext)])
  }

  ghost function CommitCall(w: World, call: CallId): World
    requires call in w.calls && w.calls[call].target in w.states && w.calls[call].stage.Opened?
  {
    var c := w.calls[call];
    if Admits(w.states[c.target].accepted, c.frame.counter) then Delivered(Return(w, call), c) else Return(w, call)
  }

  /** RotateKeys with a newly established state, one seen before, or none. */
  function Rotate(w: World, newState: Option<StateId>, receiver: Receiver): World {
    var wiped := Wiped(w.states, w.previous);
    w.(states := if newState.Some? && newState.value !in wiped then wiped[newState.value := receiver] else wiped,
       previous := w.active,
       active := newState)
  }

  predicate Enabled(w: World, a: Action) {
    match a
    case Begin(call, _, _) => call !in w.calls
    case Check(call) => call in w.calls && w.calls[call].target in w.states && w.calls[call].stage.Routed?
    case Open(call) => call in w.calls && w.calls[call].target in w.states && w.calls[call].stage.Checked?
    case Commit(call) => call in w.calls && w.calls[call].target in w.states && w.calls[call].stage.Opened?
    case RotateTo(_, receiver) => w.calls == map[] && receiver.accepted == {}
    case Close => w.calls == map[]
  }

  ghost function Next(s: Suite, w: World, a: Action): World
    requires Enabled(w, a)
  {
    match a
    case Begin(call, raw, now) => BeginCall(w, call, raw, now)
    case Check(call) => CheckCall(s, w, call)
    case Open(call) => OpenCall(s, w, call)
    case Commit(call) => CommitCall(w, call)
    case RotateTo(newState, receiver) => Rotate(w, newState, receiver)
    case Close => w.(states := Wiped(Wiped(w.states, w.active), w.previous), active := None, previous := None,
                     closed := true)
  }

  ghost predicate IsRun(s: Suite, worlds: seq<World>, actions: seq<Action>) {
    && |worlds| == |actions| + 1
    && Initial(worlds[0])
    && forall i :: 0 <= i < |actions| ==>
         Enabled(worlds[i], actions[i]) && worlds[i + 1] == Next(s, worlds[i], actions[i])
  }

  /** A manager around one newly established state, or around none. */
  ghost predicate Initial(w: World) {
    && !w.closed && w.previous.None? && w.calls == map[] && w.delivered == []
    && (forall id :: id in w.states ==> w.states[id].accepted == {})
    && (w.active.Some? ==> w.active.value in w.states)
  }

  // ---- what every reachable world keeps -----------------------------------------------------

  ghost function DeliveredBy(ds: seq<Delivery>, id: StateId): set<Counter> {
    set d | d in ds && d.target == id :: d.frame.counter
  }

  ghost predicate CallInv(s: Suite, w: World, c: Call) {
    && !w.closed && View(w).active.Some?
    && ParseFrame(c.raw) == Ok(c.frame)
    && Route(View(w), c.frame, c.now) == Some(c.slot)
    && SlotId(w, c.slot) == Some(c.target) && c.target in w.states
    && (c.stage.Checked? && OpenFrame(s, w.states[c.target].recvKey, c.frame).None? ==>
          c.stage.atCheck == Err(InvalidCiphertext))
    && (c.stage.Opened? ==> OpenFrame(s, w.states[c.target].recvKey, c.frame) == Some(c.stage.plaintext))
  }

  ghost predicate Inv(s: Suite, w: World) {
    && (w.active.Some? ==> w.active.value in w.states)
    && (w.previous.Some? ==> w.previous.value in w.states)
    && (forall id :: id in w.calls ==> CallInv(s, w, w.calls[id]))
    && (forall d :: d in w.delivered ==> d.target in w.states)
    && (forall id :: id in w.states ==> w.states[id].accepted == DeliveredBy(w.delivered, id))
    && AtMostOnce(w.delivered)
    && (forall d :: d in w.delivered ==> OpenFrame(s, d.key, d.frame) == Some(d.plaintext))
  }

  /** No cipher state delivers the same counter twice. */
  ghost predicate AtMostOnce(ds: seq<Delivery>) {
    forall i, j :: 0 <= i < j < |ds| && ds[i].target == ds[j].target ==>
      ds[i].frame.counter != ds[j].frame.counter
  }

  lemma DeliveredByOneMore(ds: seq<Delivery>, d: Delivery, id: StateId)
    ensures DeliveredBy(ds + [d], id) == DeliveredBy(ds, id) + if d.target == id then {d.frame.counter} else {}
  {
    assert (ds + [d])[|ds|] == d;
    forall x | x in ds
      ensures x in ds + [d]
    {
      var i :| 0 <= i < |ds| && ds[i] == x;
      assert (ds + [d])[i] == x;
    }
  }

  /** A call's invariant survives any change that only grows accepted sets. */
  lemma CallInvKept(s: Suite, w: World, w': World, c: Call)
    requires CallInv(s, w, c)
    requires w'.active == w.active && w'.previous == w.previous && w'.closed == w.closed
    requires w'.states.Keys == w.states.Keys
    requires forall id :: id in w.states ==>
      w'.states[id].recvKey == w.states[id].recvKey && w'.states[id].createdAt == w.states[id].createdAt
      && w'.states[id].localSessionId == w.states[id].localSessionId
    ensures CallInv(s, w', c)
  {}

  /** A step that only touches one call keeps the invariant if that call keeps its own. */
  lemma OneCallKeepsInv(s: Suite, w: World, w': World, call: CallId)
    requires Inv(s, w) && w' == w.(calls := w'.calls)
    requires w'.calls.Keys <= w.calls.Keys + {call}
    requires forall id :: id in w'.calls && id != call ==> id in w.calls && w'.calls[id] == w.calls[id]
    requires call in w'.calls ==> CallInv(s, w, w'.calls[call])
    ensures Inv(s, w')
  {
    forall id | id in w'.calls
      ensures CallInv(s, w', w'.calls[id])
    {
      CallInvKept(s, w, w', w'.calls[id]);
    }
  }

  /** For a routed call, an uninterrupted DecryptPacket is a Check and an Open at its target. */
  lemma RoutedDecrypt(s: Suite, w: World, c: Call)
    requires CallInv(s, w, c)
    ensures Decrypt(s, View(w), c.raw, c.now) == OpenAt(s, w.states[c.target], c.slot, c.frame)
  {}

  lemma RoutedCallInv(s: Suite, w: World, call: CallId, raw: seq<byte>, now: int)
    requires Inv(s, w) && call !in w.calls
    ensures call in BeginCall(w, call, raw, now).calls ==> CallInv(s, w, BeginCall(w, call, raw, now).calls[call])
  {}

  lemma CheckedCallInv(s: Suite, w: World, c: Call)
    requires CallInv(s, w, c) && Admits(w.states[c.target].accepted, c.frame.counter)
    ensures CallInv(s, w, c.(stage := Checked(Decrypt(s, View(w), c.raw, c.now))))
  {
    RoutedDecrypt(s, w, c);
  }

  lemma BeginKeepsInv(s: Suite, w: World, call: CallId, raw: seq<byte>, now: int)
    requires Inv(s, w) && call !in w.calls
    ensures Inv(s, BeginCall(w, call, raw, now))
  {
    RoutedCallInv(s, w, call, raw, now);
    OneCallKeepsInv(s, w, BeginCall(w, call, raw, now), call);
  }

  lemma CheckKeepsInv(s: Suite, w: World, call: CallId)
    requires Inv(s, w) && Enabled(w, Check(call))
    ensures Inv(s, CheckCall(s, w, call))
  {
    var c := w.calls[call];
    assert CallInv(s, w, c);
    if Admits(w.states[c.target].accepted, c.frame.counter) {
      CheckedCallInv(s, w, c);
      StageKeepsInv(s, w, call, Checked(Decrypt(s, View(w), c.raw, c.now)));
    } else {
      ReturnKeepsInv(s, w, call);
    }
  }

  lemma StageKeepsInv(s: Suite, w: World, call: CallId, stage: Stage)
    requires Inv(s, w) && call in w.calls && CallInv(s, w, w.calls[call].(stage := stage))
    ensures Inv(s, w.(calls := w.calls[call := w.calls[call].(stage := stage)]))
  {
    OneCallKeepsInv(s, w, w.(calls := w.calls[call := w.calls[call].(stage := stage)]), call);
  }

  lemma OpenKeepsInv(s: Suite, w: World, call: CallId)
    requires Inv(s, w) && Enabled(w, Open(call))
    ensures Inv(s, OpenCall(s, w, call))
  {
    assert CallInv(s, w, w.calls[call]);
    OneCallKeepsInv(s, w, OpenCall(s, w, call), call);
  }

  lemma CommitKeepsInv(s: Suite, w: World, call: CallId)
    requires Inv(s, w) && Enabled(w, Commit(call))
    ensures Inv(s, CommitCall(w, call))
  {
    var c := w.calls[call];
    assert CallInv(s, w, c);
    ReturnKeepsInv(s, w, call);
    if Admits(w.states[c.target].accepted, c.frame.counter) {
      DeliveryKeepsInv(s, Return(w, call), c);
    }
  }

  lemma ReturnKeepsInv(s: Suite, w: World, call: CallId)
    requires Inv(s, w)
    ensures Inv(s, Return(w, call))
  {
    OneCallKeepsInv(s, w, Return(w, call), call);
  }

  /** Accepting a counter together with its delivery. */
  lemma DeliveryKeepsInv(s: Suite, w: World, c: Call)
    requires Inv(s, w) && c.target in w.states && c.frame.counter !in w.states[c.target].accepted
    requires c.stage.Opened? && OpenFrame(s, w.states[c.target].recvKey, c.frame) == Some(c.stage.plaintext)
    ensures Inv(s, Delivered(w, c))
  {
    var w' := Delivered(w, c);
    var d := w'.delivered[|w.delivered|];
    forall id | id in w'.calls
      ensures CallInv(s, w', w'.calls[id])
    {
      CallInvKept(s, w, w', w.calls[id]);
    }
    forall id | id in w'.states
      ensures w'.states[id].accepted == DeliveredBy(w'.delivered, id)
    {
      DeliveredByOneMore(w.delivered, d, id);
    }
    NewCounterKeepsAtMostOnce(w.delivered, d);
  }

  lemma NewCounterKeepsAtMostOnce(ds: seq<Delivery>, d: Delivery)
    requires AtMostOnce(ds) && d.frame.counter !in DeliveredBy(ds, d.target)
    ensures AtMostOnce(ds + [d])
  {
    forall i | 0 <= i < |ds| && ds[i].target == d.target
      ensures ds[i].frame.counter != d.frame.counter
    {
      assert ds[i] in ds;
    }
  }

  lemma RotateKeepsInv(s: Suite, w: World, newState: Option<StateId>, receiver: Receiver)
    requires Inv(s, w) && w.calls == map[] && receiver.accepted == {}
    ensures Inv(s, Rotate(w, newState, receiver))
  {}

  lemma NextKeepsInv(s: Suite, w: World, a: Action)
    requires Inv(s, w) && Enabled(w, a)
    ensures Inv(s, Next(s, w, a))
  {
    match a
    case Begin(call, raw, now) => BeginKeepsInv(s, w, call, raw, now);
    case Check(call) => CheckKeepsInv(s, w, call);
    case Open(call) => OpenKeepsInv(s, w, call);
    case Commit(call) => CommitKeepsInv(s, w, call);
    case RotateTo(newState, receiver) => RotateKeepsInv(s, w, newState, receiver);
    case Close =>
  }

  /** Every interleaving: at most one delivery a counter and cipher state, before and after rotation. */
  lemma {:induction false} EveryInterleavingIsSafe(s: Suite, worlds: seq<World>, actions: seq<Action>, n: nat)
    requires IsRun(s, worlds, actions) && n < |worlds|
    ensures Inv(s, worlds[n])
  {
    if n > 0 {
      EveryInterleavingIsSafe(s, worlds, actions, n - 1);
      NextKeepsInv(s, worlds[n - 1], actions[n - 1]);
    }
  }

  /** A rotation wipes the session before the previous one, touches no other key and no window, and moves the slots on. */
  lemma RotationMeans(s: Suite, w: World, newState: Option<StateId>, receiver: Receiver)
    requires Inv(s, w) && Enabled(w, RotateTo(newState, receiver))
    ensures var w' := Next(s, w, RotateTo(newState, receiver));
            && w'.active == newState && w'.previous == w.active && w'.closed == w.closed && w'.delivered == w.delivered
            && (forall id :: id in w.states ==>
                  && id in w'.states && w'.states[id].accepted == w.states[id].accepted
                  && w'.states[id].recvKey == if w.previous == Some(id) then ZeroKey() else w.states[id].recvKey)
            && (newState.Some? && newState.value !in w.states ==> w'.states[newState.value] == receiver)
  {}

  /** Closing wipes both sessions, empties the slots and leaves the windows. */
  lemma CloseMeans(s: Suite, w: World)
    requires Inv(s, w) && Enabled(w, Close)
    ensures var w' := Next(s, w, Close);
            && w'.active.None? && w'.previous.None? && w'.closed && w'.delivered == w.delivered
            && (forall id :: id in w.states ==>
                  && id in w'.states && w'.states[id].accepted == w.states[id].accepted
                  && w'.states[id].recvKey ==
                     if w.active == Some(id) || w.previous == Some(id) then ZeroKey() else w.states[id].recvKey)
  {}

  // ---- windows change only for frames that open -------------------------------------------------

  /** If a step changes a window, a call for that state commits a frame its key has opened. */
  lemma OnlyOpenedFramesChangeWindows(s: Suite, w: World, a: Action, id: StateId)
    requires Inv(s, w) && Enabled(w, a) && id in w.states
    ensures id in Next(s, w, a).states
    ensures Next(s, w, a).states[id].accepted == w.states[id].accepted || OpensAndCommits(s, w, a, id)
  {
    if a.Commit? {
      CommitOpened(s, w, a.call, id);
    }
  }

  lemma CommitOpened(s: Suite, w: World, call: CallId, id: StateId)
    requires Inv(s, w) && Enabled(w, Commit(call)) && id in w.states
    ensures id in CommitCall(w, call).states
    ensures CommitCall(w, call).states[id].accepted == w.states[id].accepted || OpensAndCommits(s, w, Commit(call), id)
  {
    assert CallInv(s, w, w.calls[call]);
  }

  ghost predicate OpensAndCommits(s: Suite, w: World, a: Action, id: StateId)
    requires Enabled(w, a) && id in w.states && id in Next(s, w, a).states
  {
    && a.Commit? && w.calls[a.call].target == id
    && OpenFrame(s, w.states[id].recvKey, w.calls[a.call].frame) == Some(w.calls[a.call].stage.plaintext)
    && Next(s, w, a).states[id].accepted == w.states[id].accepted + {w.calls[a.call].frame.counter}
  }

  // ---- every call returns what an uninterrupted DecryptPacket would --------------------------------

  /** A call rejected at its Check: an uninterrupted DecryptPacket would report the replay at that moment. */
  lemma RejectedCheckIsAtomic(s: Suite, w: World, call: CallId)
    requires Inv(s, w) && Enabled(w, Check(call))
    requires call !in CheckCall(s, w, call).calls
    ensures Decrypt(s, View(w), w.calls[call].raw, w.calls[call].now) == Err(ReplayDetected)
    ensures CheckCall(s, w, call) == Return(w, call)
  {
    assert CallInv(s, w, w.calls[call]);
    RoutedDecrypt(s, w, w.calls[call]);
  }

  /** A call whose frame does not open: an uninterrupted DecryptPacket would have said so at its Check. */
  lemma RejectedOpenIsAtomic(s: Suite, w: World, call: CallId)
    requires Inv(s, w) && Enabled(w, Open(call))
    requires call !in OpenCall(s, w, call).calls
    ensures w.calls[call].stage.atCheck == Err(InvalidCiphertext)
    ensures OpenCall(s, w, call) == Return(w, call)
  {
    assert CallInv(s, w, w.calls[call]);
  }

  /**
   A call that reaches its Commit returns, delivers and records exactly what an uninterrupted
   DecryptPacket would at that moment, whatever other calls committed since its Check.
   */
  lemma CommitIsAtomic(s: Suite, w: World, call: CallId)
    requires Inv(s, w) && Enabled(w, Commit(call))
    ensures var c, w' := w.calls[call], CommitCall(w, call);
            match Decrypt(s, View(w), c.raw, c.now)
            case Err(e) => e == ReplayDetected && w' == Return(w, call)
            case Ok((slot, counter, packet)) =>
              && (slot, counter, packet) == (c.slot, c.frame.counter, Packet(c.stage.plaintext, c.frame.msgType))
              && w'.delivered == w.delivered + [Delivery(c.target, w.states[c.target].recvKey, c.frame, packet.plaintext)]
              && View(w') == Receivers(Record(View(w).active, counter, w.active == Some(c.target)),
                                       Record(View(w).previous, counter, w.previous == Some(c.target)), false)
  {
    assert CallInv(s, w, w.calls[call]);
    RoutedDecrypt(s, w, w.calls[call]);
  }

  /** A call that stops before routing returns what an uninterrupted DecryptPacket would, an error. */
  lemma UnroutedCallsAreAtomic(s: Suite, w: World, call: CallId, raw: seq<byte>, now: int)
    requires Inv(s, w) && call !in w.calls
    ensures call !in BeginCall(w, call, raw, now).calls ==>
      BeginCall(w, call, raw, now) == w && Decrypt(s, View(w), raw, now).Err?
    ensures call in BeginCall(w, call, raw, now).calls ==>
      Decrypt(s, View(w), raw, now).Ok? || Decrypt(s, View(w), raw, now).error in {ReplayDetected, InvalidCiphertext}
  {}
}
