/** Runs that show how a message slips in, and what the locking rules out. */
module SubscriptionTraces {
  import opened MessageKeys
  import opened Replay
  import opened RFSubscribe
  import opened RFSubscribeProofs

  lemma InitialIsReachable()
    ensures Reachable(INITIAL)
  {
    assert Run([INITIAL], []);
  }

  lemma RunExtends(states: seq<State>, actions: seq<Action>, a: Action, t: State)
    requires Run(states, actions) && Enabled(states[|actions|], a) && t == Next(states[|actions|], a)
    ensures Run(states + [t], actions + [a])
  {
    hide Enabled, Next, INITIAL;
    var more, done := states + [t], actions + [a];
    forall k | 0 <= k < |done| ensures Enabled(more[k], done[k]) && more[k+1] == Next(more[k], done[k]) {
      if k < |actions| {
        assert more[k] == states[k] && more[k+1] == states[k+1] && done[k] == actions[k];
      } else {
        assert more[k] == states[|actions|] && more[k+1] == t && done[k] == a;
      }
    }
  }

  lemma OneMoreStep(s: State, a: Action)
    requires Reachable(s) && Enabled(s, a)
    ensures Reachable(Next(s, a))
  {
    hide Enabled, Next;
    var states, actions :| Run(states, actions) && states[|states|-1] == s;
    var t := Next(s, a);
    assert |states| == |actions| + 1;
    RunExtends(states, actions, a, t);
    hide Run;
    assert (states + [t])[|states + [t]|-1] == t;
  }

  /** Never do two passes, or a pass and the publisher, hold the lock at once. */
  lemma MutualExclusion(s: State, id: nat, other: nat)
    requires Reachable(s) && id < |s.subs| && other < |s.subs|
    requires s.subs[id].phase.Replaying? && s.subs[id].phase.locked
    ensures !s.writer.Publishing?
    ensures s.subs[other].phase.Replaying? && s.subs[other].phase.locked ==> other == id
  {
    ReachableKeeps(s);
    assert SubscriberOk(s, id) && SubscriberOk(s, other);
  }

  /** The lists of channels and start times never get out of step, no channel is listed twice, and what the
      publisher is about to look at exists and is registered: it never sends on a closed channel. */
  lemma PublisherIsSafe(s: State)
    requires Reachable(s)
    ensures |s.channels| == |s.starts|
    ensures forall p, q :: 0 <= p < q < |s.channels| ==> s.channels[p] != s.channels[q]
    ensures s.writer.Publishing? ==> s.store != [] && s.writer.next <= |s.channels|
    ensures forall q :: 0 <= q < |s.channels| ==>
              s.channels[q] < |s.subs| && s.subs[s.channels[q]].phase.Registered?
  {
    ReachableKeeps(s);
    forall q | 0 <= q < |s.channels| ensures s.channels[q] < |s.subs| && s.subs[s.channels[q]].phase.Registered? {
      assert ListedOk(s, q);
      assert SubscriberOk(s, s.channels[q]);
    }
  }

  // ----- A message older than asked for -----

  lemma EarlyRegistration() returns (s: State)
    ensures Reachable(s)
    ensures s == State([], Idle, Free, [Subscriber(10, Registered, [], [], 0, 0)], [0], [1])
  {
    InitialIsReachable();
    s := Do(INITIAL, Subscribe(10));
    s := Do(s, StartPass(0));
    assert s.subs[0].phase == Replaying([], 0, true);
    s := Do(s, EndPass(0));
  }

  /** The last stored message goes to the only subscriber. */
  lemma PublishToOne(s: State) returns (t: State)
    requires Reachable(s) && s.writer.Stored? && s.lock.Free? && s.store != []
    requires |s.subs| == 1 && s.channels == [0] && |s.starts| == 1
    requires var m := s.store[|s.store|-1]; m.at >= s.starts[0] && HasRoom(s.subs[0])
    ensures Reachable(t) && t == s.(writer := Idle, subs := [Deliver(s.subs[0], s.store[|s.store|-1])])
  {
    t := Do(s, PublishLock);
    t := Do(t, PublishNext);
    t := Do(t, PublishUnlock);
  }

  /** A subscriber asks for messages from 10 on and registers before any exists; then message 5 is published. */
  lemma OlderMessageSlipsIn() returns (s: State)
    ensures Reachable(s) && s.writer.Idle? && |s.subs| == 1 && s.subs[0].phase.Registered?
    ensures s.subs[0].start == 10 && s.subs[0].sent == [Message(5, [])]
  {
    s := EarlyRegistration();
    s := Do(s, Put(Message(5, [])));
    s := PublishToOne(s);
  }

  lemma Do(s: State, a: Action) returns (t: State)
    requires Reachable(s) && Enabled(s, a)
    ensures t == Next(s, a) && Reachable(t)
  {
    OneMoreStep(s, a);
    t := Next(s, a);
  }

  // ----- A message delivered twice -----

  function Numbered(n: nat): seq<Message> { seq(n, i requires 0 <= i < n => Message(i + 1, [])) }

  lemma {:induction false} ReplayNumbered(n: nat)
    requires n <= 1000
    ensures Chronological(Numbered(n))
    ensures RFIterate(Numbered(n), 1) == Numbered(n) && RFIterate(Numbered(n), n + 1) == []
  {
    hide From, RFIterate;
    var store := Numbered(n);
    IterateIsFrom(store, 1);
    FromAll(store, 1);
    IterateIsFrom(store, n + 1);
    FromNone(store, n + 1);
  }

  /** n messages stored and published with nobody listening. */
  lemma {:induction false} ManyPublished(n: nat) returns (s: State)
    requires n <= 1000
    ensures Reachable(s) && s == State(Numbered(n), Idle, Free, [], [], [])
  {
    if n == 0 {
      InitialIsReachable();
      s := INITIAL;
    } else {
      s := ManyPublished(n - 1);
      var m := Message(n, []);
      assert s.store + [m] == Numbered(n);
      s := Do(s, Put(m));
      s := Do(s, PublishLock);
      s := Do(s, PublishUnlock);
    }
  }

  /** k messages of a pass go through without the channel filling up. */
  lemma {:induction false} ManyReplayed(s: State, k: nat) returns (t: State)
    requires Reachable(s) && |s.subs| == 1 && s.subs[0].phase.Replaying?
    requires k <= |s.subs[0].phase.pending| && |s.subs[0].queue| + k <= CAPACITY
    ensures Reachable(t) && |t.subs| == 1
    ensures var (a, b) := (s.subs[0], t.subs[0]);
            && t == s.(subs := [b]) && b.phase.Replaying? && b.phase.locked == a.phase.locked
            && b.phase.pending == a.phase.pending[k..]
            && b.queue == a.queue + a.phase.pending[..k] && b.sent == a.sent + a.phase.pending[..k]
            && b.start == a.start && b.seen == a.seen && b.base == a.base
            && (k > 0 ==> b.phase.lastAt == a.phase.pending[k-1].at)
  {
    if k == 0 {
      t := s;
    } else {
      t := ManyReplayed(s, k - 1);
      t := Do(t, ReplaySend(0));
    }
  }

  lemma BeginPass(s: State, rest: seq<Message>) returns (t: State)
    requires Reachable(s) && Enabled(s, StartPass(0)) && |s.subs| == 1
    requires RFIterate(s.store, s.subs[0].phase.from) == rest
    ensures Reachable(t)
    ensures t == s.(lock := ByCatchUp(0),
                    subs := [s.subs[0].(phase := Replaying(rest, 0, true), seen := |s.store|)])
  {
    hide RFIterate;
    t := Do(s, StartPass(0));
  }

  lemma StoredAndSubscribed() returns (s: State)
    ensures Reachable(s) && Chronological(s.store)
    ensures s == State(Numbered(101), Stored, Free, [Subscriber(1, Waiting(1), [], [], 0, 0)], [], [])
  {
    var m := Message(101, []);
    s := ManyPublished(100);
    assert s.store + [m] == Numbered(101);
    s := Do(s, Put(m));
    s := Do(s, Subscribe(1));
  }

  /** 100 messages published, message 101 stored, and a subscriber about to replay them all. */
  lemma OneInFlight() returns (s: State)
    ensures Reachable(s)
    ensures s == State(Numbered(101), Stored, ByCatchUp(0),
                       [Subscriber(1, Replaying(Numbered(101), 0, true), [], [], 101, 0)], [], [])
  {
    s := StoredAndSubscribed();
    hide RFIterate, From, Next;
    ReplayNumbered(101);
    s := BeginPass(s, s.store);
  }

  lemma FullChannel() returns (s: State)
    ensures Reachable(s)
    ensures s == State(Numbered(101), Stored, ByCatchUp(0),
                       [Subscriber(1, Replaying([Message(101, [])], 100, true),
                                   Numbered(101)[..100], Numbered(101)[..100], 101, 0)], [], [])
  {
    s := OneInFlight();
    s := ManyReplayed(s, 100);
    assert s.subs[0].phase.pending == [Message(101, [])];
    assert [] + Numbered(101)[..100] == Numbered(101)[..100];
  }

  /** The channel fills up after 100 messages, the lock is given up, the consumer makes room. */
  lemma LockGivenUp() returns (s: State)
    ensures Reachable(s)
    ensures s == State(Numbered(101), Stored, Free,
                       [Subscriber(1, Replaying([Message(101, [])], 100, false),
                                   Numbered(101)[1..100], Numbered(101)[..100], 101, 0)], [], [])
  {
    hide RFIterate, Reachable, Chronological;
    s := FullChannel();
    s := Do(s, ReplayUnlock(0));
    s := Do(s, Take(0));
    assert s.subs[0].queue == Numbered(101)[1..100];
  }

  /** The first pass ends without the lock. */
  lemma FirstPass() returns (s: State)
    ensures Reachable(s)
    ensures s == State(Numbered(101), Stored, Free,
                       [Subscriber(1, Waiting(102), Numbered(101)[2..], Numbered(101), 101, 0)], [], [])
  {
    hide RFIterate, Reachable, Chronological;
    s := LockGivenUp();
    s := Do(s, ReplaySend(0));
    assert s.subs[0].sent == Numbered(101);
    s := Do(s, EndPass(0));
    s := Do(s, Take(0));
    assert s.subs[0].queue == Numbered(101)[2..];
  }

  /** The second pass finds nothing new and registers. */
  lemma SecondPass() returns (s: State)
    ensures Reachable(s)
    ensures s == State(Numbered(101), Stored, Free,
                       [Subscriber(1, Registered, Numbered(101)[2..], Numbered(101), 101, 100)], [0], [1])
  {
    hide RFIterate, From;
    s := FirstPass();
    ReplayNumbered(101);
    hide Chronological;
    s := BeginPass(s, []);
    s := Do(s, EndPass(0));
  }

  /** A channel of 100 fills up while message 101 is stored but not yet published; the second pass finds
      nothing new and registers with start time 1, and message 101 is delivered again. */
  lemma MessageIsDeliveredTwice() returns (s: State)
    ensures Reachable(s) && s.writer.Idle? && |s.subs| == 1 && s.subs[0].phase.Registered?
    ensures s.subs[0].start == 1 && s.subs[0].sent == Numbered(101) + [Message(101, [])]
  {
    s := SecondPass();
    s := PublishToOne(s);
  }
}
