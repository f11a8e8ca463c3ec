/**
 Catching up and then subscribing, as a system of steps.

 One writer stores and publishes messages; any number of subscribers replay the store under the publish lock,
 give the lock up when their channel is full, try again, and register once a whole pass ran locked.  Every
 step below is one indivisible piece of that code; steps of the writer, the subscribers, their consumers and
 of unsubscribing interleave freely.
 */
module RFSubscribe {
  import opened MessageKeys
  import opened Replay

  const CAPACITY := 100

  datatype Phase =
    | Waiting(from: int)                                                   // about to lock and replay from there
    | Replaying(pending: seq<Message>, lastAt: int, locked: bool)          // in the middle of a pass
    | Registered
    | Closed

  /** `queue` is what the channel holds; `sent`, `seen` and `base` are history: everything ever put on the
      channel, how much of the store the last pass had in view, and how much was published when registering. */
  datatype Subscriber = Subscriber(start: int, phase: Phase, queue: seq<Message>,
                                   sent: seq<Message>, seen: nat, base: nat)

  datatype Writer = Idle | Stored | Publishing(next: nat)

  datatype Owner = Free | ByWriter | ByCatchUp(id: nat)

  /** `channels` and `starts` are the parallel lists of registered channels and their start times. */
  datatype State = State(store: seq<Message>, writer: Writer, lock: Owner, subs: seq<Subscriber>,
                         channels: seq<nat>, starts: seq<int>)

  const INITIAL := State([], Idle, Free, [], [], [])

  datatype Action =
    | Subscribe(start: int)
    | Put(m: Message)
    | PublishLock
    | PublishNext
    | PublishUnlock
    | StartPass(id: nat)
    | ReplaySend(id: nat)
    | ReplayUnlock(id: nat)
    | EndPass(id: nat)
    | Take(id: nat)
    | Unsubscribe(id: nat)

  function Deliver(sub: Subscriber, m: Message): Subscriber {
    sub.(queue := sub.queue + [m], sent := sub.sent + [m])
  }

  predicate HasRoom(sub: Subscriber) { |sub.queue| < CAPACITY }

  /** How many messages have been published to everybody. */
  function Published(s: State): nat {
    if s.writer.Idle? || s.store == [] then |s.store| else |s.store| - 1
  }

  /** When each action can happen. */
  ghost predicate Enabled(s: State, a: Action) {
    match a
    case Subscribe(start) => 0 <= start <= MAX_AT
    case Put(m) => s.writer.Idle? && Chronological(s.store + [m])
    case PublishLock => s.writer.Stored? && s.lock.Free?
    case PublishNext =>
      && s.writer.Publishing? && s.writer.next < |s.channels| && s.writer.next < |s.starts| && s.store != []
      && s.channels[s.writer.next] < |s.subs|
      && (s.store[|s.store|-1].at >= s.starts[s.writer.next] ==> HasRoom(s.subs[s.channels[s.writer.next]]))
    case PublishUnlock => s.writer.Publishing? && s.writer.next == |s.channels|
    case StartPass(id) =>
      && id < |s.subs| && s.subs[id].phase.Waiting? && s.subs[id].phase.from >= 0 && s.lock.Free?
      && Chronological(s.store)
    case ReplaySend(id) =>
      id < |s.subs| && s.subs[id].phase.Replaying? && s.subs[id].phase.pending != [] && HasRoom(s.subs[id])
    case ReplayUnlock(id) =>
      && id < |s.subs| && s.subs[id].phase.Replaying? && s.subs[id].phase.pending != []
      && !HasRoom(s.subs[id]) && s.subs[id].phase.locked
    case EndPass(id) => id < |s.subs| && s.subs[id].phase.Replaying? && s.subs[id].phase.pending == []
    case Take(id) => id < |s.subs| && s.subs[id].queue != []
    case Unsubscribe(id) => s.lock.Free? && id < |s.subs| && |s.channels| == |s.starts|
  }

  function Without<T>(list: seq<T>, i: nat): seq<T>
    requires i < |list|
  {
    list[..i] + list[i+1..]
  }

  /** The position of id in the list, or its length. */
  function Find(list: seq<nat>, id: nat): (i: nat)
    ensures i <= |list| && (i < |list| ==> list[i] == id)
    ensures i == |list| ==> id !in list
  {
    if list == [] || list[0] == id then 0 else Find(list[1..], id) + 1
  }

  /** The state after an action. */
  ghost function Next(s: State, a: Action): State
    requires Enabled(s, a)
  {
    match a
    case Subscribe(start) => s.(subs := s.subs + [Subscriber(start, Waiting(start), [], [], 0, 0)])
    case Put(m) => s.(store := s.store + [m], writer := Stored)
    case PublishLock => s.(lock := ByWriter, writer := Publishing(0))
    case PublishNext =>
      var m, i := s.store[|s.store|-1], s.writer.next;
      var id := s.channels[i];
      s.(writer := Publishing(i + 1),
         subs := if m.at >= s.starts[i] then s.subs[id := Deliver(s.subs[id], m)] else s.subs)
    case PublishUnlock => s.(lock := Free, writer := Idle)
    case StartPass(id) =>
      var sub := s.subs[id];
      s.(lock := ByCatchUp(id),
         subs := s.subs[id := sub.(phase := Replaying(RFIterate(s.store, sub.phase.from), 0, true), seen := |s.store|)])
    case ReplaySend(id) =>
      var sub := s.subs[id];
      var m := sub.phase.pending[0];
      s.(subs := s.subs[id := Deliver(sub, m).(phase := Replaying(sub.phase.pending[1..], m.at, sub.phase.locked))])
    case ReplayUnlock(id) =>
      var sub := s.subs[id];
      s.(lock := Free, subs := s.subs[id := sub.(phase := sub.phase.(locked := false))])
    case EndPass(id) =>
      var sub := s.subs[id];
      if sub.phase.locked then
        s.(lock := Free, channels := s.channels + [id], starts := s.starts + [sub.phase.lastAt + 1],
           subs := s.subs[id := sub.(phase := Registered, base := Published(s))])
      else
        s.(subs := s.subs[id := sub.(phase := Waiting(sub.phase.lastAt + 1))])
    case Take(id) => s.(subs := s.subs[id := s.subs[id].(queue := s.subs[id].queue[1..])])
    case Unsubscribe(id) =>
      var i := Find(s.channels, id);
      if i == |s.channels| then s
      else s.(channels := Without(s.channels, i), starts := Without(s.starts, i),
              subs := s.subs[id := s.subs[id].(phase := Closed)])
  }

  /** A run: the initial state, then one enabled action after another. */
  ghost predicate Run(states: seq<State>, actions: seq<Action>) {
    && |states| == |actions| + 1 && states[0] == INITIAL
    && forall k :: 0 <= k < |actions| ==> Enabled(states[k], actions[k]) && states[k+1] == Next(states[k], actions[k])
  }

  ghost predicate Reachable(s: State) {
    exists states, actions :: Run(states, actions) && states[|states|-1] == s
  }

  // ----- The invariant -----

  /** How many messages have been published to the subscriber at list position q. */
  function PublishedTo(s: State, q: nat): nat {
    Published(s) + (if s.writer.Publishing? && q < s.writer.next then 1 else 0)
  }

  ghost predicate WaitingOk(store: seq<Message>, sub: Subscriber)
    requires sub.phase.Waiting? && sub.seen <= |store|
  {
    && sub.phase.from >= 0
    && sub.sent == From(store[..sub.seen], sub.start)
    && if sub.seen == 0 then sub.phase.from == sub.start
       else sub.phase.from == store[sub.seen-1].at + 1 && store[sub.seen-1].at >= sub.start
  }

  ghost predicate ReplayingOk(store: seq<Message>, published: nat, sub: Subscriber)
    requires sub.phase.Replaying? && sub.seen <= |store|
  {
    && sub.sent + sub.phase.pending == From(store[..sub.seen], sub.start)
    && (sub.phase.lastAt != 0 ==> sub.sent != [] && sub.sent[|sub.sent|-1].at == sub.phase.lastAt)
    && (sub.phase.lastAt == 0 && !sub.phase.locked ==> sub.phase.pending != [])
    && (sub.phase.locked ==> published <= sub.seen <= published + 1)
  }

  /** What a registered subscriber has been sent: the replayed part of the store, then every message published
      since it registered and stamped regStart or later. */
  ghost predicate RegisteredOk(store: seq<Message>, publishedTo: nat, regStart: int, sub: Subscriber)
    requires sub.seen <= |store|
  {
    && sub.base <= publishedTo <= |store| && sub.base <= sub.seen <= sub.base + 1
    && (regStart == 1 || (sub.seen > 0 && regStart == store[sub.seen-1].at + 1 && store[sub.seen-1].at >= sub.start))
    && sub.sent == From(store[..sub.seen], sub.start) + From(store[sub.base..publishedTo], regStart)
  }

  /** Strictly increasing timestamps, except that the message at position d may be repeated right after. */
  ghost predicate OrderedExcept(sent: seq<Message>, d: nat) {
    forall i, j :: 0 <= i < j < |sent| ==>
      sent[i].at < sent[j].at || (i == d && j == d + 1 && sent[i] == sent[j])
  }

  /** Timestamps never go back, and at most one message appears twice. */
  ghost predicate OrderedOnce(sent: seq<Message>) {
    exists d :: OrderedExcept(sent, d)
  }

  ghost predicate SubscriberOk(s: State, id: nat)
    requires id < |s.subs|
  {
    var sub := s.subs[id];
    && 0 <= sub.start <= MAX_AT && sub.seen <= |s.store| && |sub.queue| <= CAPACITY
    && (sub.phase.Waiting? ==> WaitingOk(s.store, sub))
    && (sub.phase.Replaying? ==> ReplayingOk(s.store, Published(s), sub))
    && (s.lock == ByCatchUp(id) <==> sub.phase.Replaying? && sub.phase.locked)
    && (id in s.channels <==> sub.phase.Registered?)
    && OrderedOnce(sub.sent)
  }

  ghost predicate ListedOk(s: State, q: nat)
    requires q < |s.channels| == |s.starts|
  {
    && s.channels[q] < |s.subs| && s.subs[s.channels[q]].seen <= |s.store|
    && RegisteredOk(s.store, PublishedTo(s, q), s.starts[q], s.subs[s.channels[q]])
  }

  ghost predicate Inv(s: State) {
    && Chronological(s.store)
    && (!s.writer.Idle? ==> s.store != [])
    && (s.lock.ByWriter? <==> s.writer.Publishing?)
    && (s.lock.ByCatchUp? ==> s.lock.id < |s.subs|)
    && |s.channels| == |s.starts|
    && (s.writer.Publishing? ==> s.writer.next <= |s.channels|)
    && (forall p, q :: 0 <= p < q < |s.channels| ==> s.channels[p] != s.channels[q])
    && (forall id :: 0 <= id < |s.subs| ==> SubscriberOk(s, id))
    && (forall q :: 0 <= q < |s.channels| ==> ListedOk(s, q))
  }
}
