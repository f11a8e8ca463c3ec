/** Every step of the subscription protocol keeps its invariant. */
module RFSubscribeProofs {
  import opened MessageKeys
  import opened Replay
  import opened RFSubscribe

  // ----- Order -----

  lemma TwoSlices(store: seq<Message>, a: nat, e: nat, c: nat, n: nat)
    requires Chronological(store) && a <= e <= |store| && c <= n <= |store| && e <= c + 1
    ensures OrderedOnce(store[a..e] + store[c..n])
  {
    var sent := store[a..e] + store[c..n];
    var d := if a < e then e - a - 1 else 0;
    assert OrderedExcept(sent, d);
  }

  lemma FromIsSlice(store: seq<Message>, b: nat, n: nat, start: int) returns (c: nat)
    requires Chronological(store) && b <= n <= |store|
    ensures b <= c <= n && From(store[b..n], start) == store[c..n]
  {
    hide From;
    var k := FromIsSuffix(store[b..n], start);
    c := b + k;
    assert store[b..n][k..] == store[c..n];
  }

  lemma RegisteredIsOrdered(store: seq<Message>, n: nat, regStart: int, sub: Subscriber)
    requires Chronological(store) && sub.seen <= |store| && RegisteredOk(store, n, regStart, sub)
    ensures OrderedOnce(sub.sent)
  {
    hide From, OrderedOnce;
    var e, b := sub.seen, sub.base;
    var a := FromIsSlice(store, 0, e, sub.start);
    var c := FromIsSlice(store, b, n, regStart);
    assert store[..e] == store[0..e];
    hide Chronological;
    TwoSlices(store, a, e, c, n);
  }

  lemma {:induction false} PrefixIsOrdered(store: seq<Message>, start: int, sent: seq<Message>)
    requires Chronological(store) && sent <= From(store, start)
    ensures OrderedOnce(sent)
  {
    FromChronological(store, start);
    assert OrderedExcept(sent, 0);
  }

  // ----- Steps -----

  lemma SameSubscriber(s: State, t: State, id: nat)
    requires id < |s.subs| && SubscriberOk(s, id) && id < |t.subs| && t.subs[id] == s.subs[id]
    requires t.store == s.store && Published(t) == Published(s)
    requires t.lock == ByCatchUp(id) <==> s.lock == ByCatchUp(id)
    requires id in t.channels <==> id in s.channels
    ensures SubscriberOk(t, id)
  {
  }

  lemma SubscribeKeeps(s: State, start: int)
    requires Inv(s) && Enabled(s, Subscribe(start))
    ensures Inv(Next(s, Subscribe(start)))
  {
    var t := Next(s, Subscribe(start));
    assert From(t.store[..0], start) == [] && OrderedExcept([], 0);
    hide From, Chronological, RegisteredOk, OrderedOnce;
    forall q | 0 <= q < |s.channels| ensures s.channels[q] < |s.subs| {
      assert ListedOk(s, q);
    }
    forall id | 0 <= id < |t.subs| ensures SubscriberOk(t, id) {
      if id < |s.subs| {
        assert SubscriberOk(s, id);
      }
    }
    forall q | 0 <= q < |t.channels| ensures ListedOk(t, q) {
      assert ListedOk(s, q);
    }
  }

  lemma PutKeeps(s: State, m: Message)
    requires Inv(s) && Enabled(s, Put(m))
    ensures Inv(Next(s, Put(m)))
  {
    hide From, OrderedOnce;
    var t := Next(s, Put(m));
    forall id | 0 <= id < |t.subs| ensures SubscriberOk(t, id) {
      assert SubscriberOk(s, id);
      assert t.store[..s.subs[id].seen] == s.store[..s.subs[id].seen];
    }
    forall q | 0 <= q < |t.channels| ensures ListedOk(t, q) {
      assert ListedOk(s, q);
      var sub := s.subs[s.channels[q]];
      assert PublishedTo(t, q) == PublishedTo(s, q);
      assert t.store[..sub.seen] == s.store[..sub.seen];
      assert t.store[sub.base..PublishedTo(s, q)] == s.store[sub.base..PublishedTo(s, q)];
    }
  }

  lemma PublishLockKeeps(s: State)
    requires Inv(s) && Enabled(s, PublishLock)
    ensures Inv(Next(s, PublishLock))
  {
    hide From, OrderedOnce;
    var t := Next(s, PublishLock);
    forall id | 0 <= id < |t.subs| ensures SubscriberOk(t, id) {
      assert SubscriberOk(s, id);
      SameSubscriber(s, t, id);
    }
    forall q | 0 <= q < |t.channels| ensures ListedOk(t, q) {
      assert ListedOk(s, q);
    }
  }

  lemma {:induction false} OneMorePublished(store: seq<Message>, base: nat, n: nat, regStart: int)
    requires base <= n < |store|
    ensures From(store[base..n+1], regStart) ==
            From(store[base..n], regStart) + (if store[n].at >= regStart then [store[n]] else [])
  {
    assert store[base..n+1][..n-base] == store[base..n];
  }

  lemma DeliverKeeps(store: seq<Message>, n: nat, regStart: int, sub: Subscriber)
    requires sub.seen <= |store| && n < |store| && RegisteredOk(store, n, regStart, sub)
    ensures RegisteredOk(store, n + 1, regStart, if store[n].at >= regStart then Deliver(sub, store[n]) else sub)
  {
    OneMorePublished(store, sub.base, n, regStart);
    hide From;
  }

  lemma PublishNextKeeps(s: State)
    requires Inv(s) && Enabled(s, PublishNext)
    ensures Inv(Next(s, PublishNext))
  {
    hide RegisteredOk, Chronological, WaitingOk, ReplayingOk, OrderedOnce;
    var t := Next(s, PublishNext);
    var i := s.writer.next;
    var target := s.channels[i];
    assert SubscriberOk(s, target);
    assert ListedOk(s, i);
    DeliverKeeps(s.store, Published(s), s.starts[i], s.subs[target]);
    RegisteredIsOrdered(s.store, Published(s) + 1, s.starts[i], t.subs[target]);
    forall id | 0 <= id < |t.subs| ensures SubscriberOk(t, id) {
      assert SubscriberOk(s, id);
    }
    forall q | 0 <= q < |t.channels| ensures ListedOk(t, q) {
      assert ListedOk(s, q);
      if q != i {
        assert s.channels[q] != target;
      }
    }
  }

  lemma PublishUnlockKeeps(s: State)
    requires Inv(s) && Enabled(s, PublishUnlock)
    ensures Inv(Next(s, PublishUnlock))
  {
    hide From, OrderedOnce;
    var t := Next(s, PublishUnlock);
    forall id | 0 <= id < |t.subs| ensures SubscriberOk(t, id) {
      assert SubscriberOk(s, id);
    }
    forall q | 0 <= q < |t.channels| ensures ListedOk(t, q) {
      assert ListedOk(s, q);
      assert PublishedTo(t, q) == PublishedTo(s, q);
    }
  }

  /** A pass starting where the last one stopped replays exactly what has not been sent yet. */
  lemma {:induction false} PassReplaysTheRest(store: seq<Message>, sub: Subscriber)
    requires Chronological(store) && sub.phase.Waiting? && sub.seen <= |store| && WaitingOk(store, sub)
    requires 0 <= sub.start <= MAX_AT
    ensures sub.sent + RFIterate(store, sub.phase.from) == From(store, sub.start)
  {
    var n := sub.seen;
    if n == 0 {
      IterateIsFrom(store, sub.phase.from);
      assert sub.sent == [];
    } else {
      hide From, RFIterate;
      var from := store[n-1].at + 1;
      assert sub.phase.from == from && store[n-1].at >= sub.start && sub.sent == From(store[..n], sub.start);
      hide WaitingOk;
      FromBehind(store, n, sub.start);
    }
  }

  /** What is selected up to message n-1, and what is iterated from behind it. */
  lemma {:induction false} FromBehind(store: seq<Message>, n: nat, start: int)
    requires Chronological(store) && 0 < n <= |store| && store[n-1].at >= start
    ensures From(store[..n], start) + RFIterate(store, store[n-1].at + 1) == From(store, start)
  {
    hide From, RFIterate;
    IterateIsFrom(store, store[n-1].at + 1);
    FromAfter(store, n);
    FromSplit(store, n, start);
    RestIsLater(store, n, start);
  }

  lemma {:induction false} RestIsLater(store: seq<Message>, n: nat, start: int)
    requires Chronological(store) && 0 < n <= |store| && store[n-1].at >= start
    ensures From(store[n..], start) == store[n..]
  {
    forall i | n <= i < |store| ensures store[i].at >= start {
      assert store[n-1].at < store[i].at;
    }
    FromAll(store[n..], start);
  }

  lemma StartPassKeeps(s: State, id: nat)
    requires Inv(s) && Enabled(s, StartPass(id))
    ensures Inv(Next(s, StartPass(id)))
  {
    hide RFIterate, From, RegisteredOk, OrderedOnce;
    var t := Next(s, StartPass(id));
    assert SubscriberOk(s, id);
    PassReplaysTheRest(s.store, s.subs[id]);
    assert s.store[..|s.store|] == s.store;
    assert ReplayingOk(t.store, Published(t), t.subs[id]);
    hide ReplayingOk, WaitingOk, Chronological;
    forall k | 0 <= k < |t.subs| ensures SubscriberOk(t, k) {
      assert SubscriberOk(s, k);
    }
    forall q | 0 <= q < |t.channels| ensures ListedOk(t, q) {
      assert ListedOk(s, q);
      assert s.channels[q] != id by { assert s.channels[q] in s.channels; }
    }
  }

  lemma SendKeeps(store: seq<Message>, n: nat, sub: Subscriber)
    requires Chronological(store) && sub.phase.Replaying? && sub.seen <= |store| && sub.phase.pending != []
    requires ReplayingOk(store, n, sub)
    ensures var m := sub.phase.pending[0];
            var next := Deliver(sub, m).(phase := Replaying(sub.phase.pending[1..], m.at, sub.phase.locked));
            ReplayingOk(store, n, next) && OrderedOnce(next.sent)
  {
    var m := sub.phase.pending[0];
    var all := From(store[..sub.seen], sub.start);
    assert sub.sent + [m] + sub.phase.pending[1..] == sub.sent + sub.phase.pending;
    PrefixIsOrdered(store[..sub.seen], sub.start, sub.sent + [m]);
    FromChronological(store[..sub.seen], sub.start);
    assert m == all[|sub.sent|];
    hide From, OrderedOnce;
  }

  lemma ReplaySendKeeps(s: State, id: nat)
    requires Inv(s) && Enabled(s, ReplaySend(id))
    ensures Inv(Next(s, ReplaySend(id)))
  {
    assert SubscriberOk(s, id);
    SendKeeps(s.store, Published(s), s.subs[id]);
    hide From, OrderedOnce, ReplayingOk, WaitingOk, Chronological;
    var t := Next(s, ReplaySend(id));
    forall k | 0 <= k < |t.subs| ensures SubscriberOk(t, k) {
      assert SubscriberOk(s, k);
    }
    forall q | 0 <= q < |t.channels| ensures ListedOk(t, q) {
      assert ListedOk(s, q);
      assert s.channels[q] != id by { assert s.channels[q] in s.channels; }
    }
  }

  lemma ReplayUnlockKeeps(s: State, id: nat)
    requires Inv(s) && Enabled(s, ReplayUnlock(id))
    ensures Inv(Next(s, ReplayUnlock(id)))
  {
    hide From, OrderedOnce;
    var t := Next(s, ReplayUnlock(id));
    assert SubscriberOk(s, id);
    forall k | 0 <= k < |t.subs| ensures SubscriberOk(t, k) {
      assert SubscriberOk(s, k);
    }
    forall q | 0 <= q < |t.channels| ensures ListedOk(t, q) {
      assert ListedOk(s, q);
      assert s.channels[q] != id;
    }
  }

  /** A pass that replayed something stopped at the newest message it had in view. */
  lemma PassEndsAtNewest(store: seq<Message>, published: nat, sub: Subscriber)
    requires Chronological(store) && sub.phase.Replaying? && sub.seen <= |store| && ReplayingOk(store, published, sub)
    requires sub.phase.pending == []
    ensures sub.sent == From(store[..sub.seen], sub.start)
    ensures sub.phase.lastAt != 0 ==>
              sub.seen > 0 && sub.phase.lastAt == store[sub.seen-1].at && store[sub.seen-1].at >= sub.start
  {
    assert sub.sent + [] == sub.sent;
    if sub.phase.lastAt != 0 {
      FromLast(store[..sub.seen], sub.start);
    }
  }

  /** A pass that kept the lock leaves the subscriber exactly where the published messages take over. */
  lemma RegisteringIsExact(s: State, id: nat)
    requires Inv(s) && Enabled(s, EndPass(id)) && s.subs[id].phase.locked
    ensures s.subs[id].seen <= |s.store|
    ensures RegisteredOk(s.store, Published(s), s.subs[id].phase.lastAt + 1,
                         s.subs[id].(phase := Registered, base := Published(s)))
  {
    assert SubscriberOk(s, id);
    var sub, n := s.subs[id], Published(s);
    PassEndsAtNewest(s.store, n, sub);
    assert s.store[n..n] == [] && From([], sub.phase.lastAt + 1) == [];
    hide From;
  }

  lemma EndPassKeeps(s: State, id: nat)
    requires Inv(s) && Enabled(s, EndPass(id))
    ensures Inv(Next(s, EndPass(id)))
  {
    hide From, OrderedOnce;
    var t := Next(s, EndPass(id));
    assert SubscriberOk(s, id);
    PassEndsAtNewest(s.store, Published(s), s.subs[id]);
    if s.subs[id].phase.locked {
      RegisteringIsExact(s, id);
    } else {
      assert WaitingOk(t.store, t.subs[id]);
    }
    assert id !in s.channels;
    hide RegisteredOk, WaitingOk, ReplayingOk, Chronological;
    EndPassFrame(s, id);
  }

  lemma EndPassFrame(s: State, id: nat)
    requires Inv(s) && Enabled(s, EndPass(id)) && id !in s.channels && s.subs[id].seen <= |s.store|
    requires var sub := Next(s, EndPass(id)).subs[id];
             if sub.phase.Waiting? then WaitingOk(s.store, sub)
             else RegisteredOk(s.store, Published(s), s.subs[id].phase.lastAt + 1, sub)
    ensures Inv(Next(s, EndPass(id)))
  {
    hide From, OrderedOnce, RegisteredOk, WaitingOk, ReplayingOk, Chronological;
    var t := Next(s, EndPass(id));
    assert SubscriberOk(s, id);
    forall k | 0 <= k < |t.subs| ensures SubscriberOk(t, k) {
      assert SubscriberOk(s, k);
    }
    forall q | 0 <= q < |t.channels| ensures ListedOk(t, q) {
      if q < |s.channels| {
        assert ListedOk(s, q);
        assert s.channels[q] in s.channels;
      }
    }
  }

  lemma TakeKeeps(s: State, id: nat)
    requires Inv(s) && Enabled(s, Take(id))
    ensures Inv(Next(s, Take(id)))
  {
    hide From, Chronological, OrderedOnce;
    var t := Next(s, Take(id));
    forall k | 0 <= k < |t.subs| ensures SubscriberOk(t, k) {
      assert SubscriberOk(s, k);
    }
    forall q | 0 <= q < |t.channels| ensures ListedOk(t, q) {
      assert ListedOk(s, q);
    }
  }

  lemma UnsubscribeKeeps(s: State, id: nat)
    requires Inv(s) && Enabled(s, Unsubscribe(id))
    ensures Inv(Next(s, Unsubscribe(id)))
  {
    hide From, OrderedOnce;
    var t := Next(s, Unsubscribe(id));
    var i := Find(s.channels, id);
    if i < |s.channels| {
      forall k | 0 <= k < |t.subs| ensures SubscriberOk(t, k) {
        assert SubscriberOk(s, k);
        WithoutMembers(s.channels, i, k);
      }
      forall q | 0 <= q < |t.channels| ensures ListedOk(t, q) {
        var p := if q < i then q else q + 1;
        assert ListedOk(s, p) && t.channels[q] == s.channels[p] != id;
      }
    }
  }

  lemma WithoutMembers(list: seq<nat>, i: nat, k: nat)
    requires i < |list| && forall p, q :: 0 <= p < q < |list| ==> list[p] != list[q]
    ensures k in Without(list, i) <==> k in list && k != list[i]
  {
    if j :| 0 <= j < |list| && list[j] == k && j != i {
      assert Without(list, i)[if j < i then j else j - 1] == k;
    }
  }

  lemma StepKeeps(s: State, a: Action)
    requires Inv(s) && Enabled(s, a)
    ensures Inv(Next(s, a))
  {
    hide Inv, Enabled, Next;
    match a
    case Subscribe(start) => SubscribeKeeps(s, start);
    case Put(m) => PutKeeps(s, m);
    case PublishLock => PublishLockKeeps(s);
    case PublishNext => PublishNextKeeps(s);
    case PublishUnlock => PublishUnlockKeeps(s);
    case StartPass(id) => StartPassKeeps(s, id);
    case ReplaySend(id) => ReplaySendKeeps(s, id);
    case ReplayUnlock(id) => ReplayUnlockKeeps(s, id);
    case EndPass(id) => EndPassKeeps(s, id);
    case Take(id) => TakeKeeps(s, id);
    case Unsubscribe(id) => UnsubscribeKeeps(s, id);
  }

  lemma {:induction false} RunKeeps(states: seq<State>, actions: seq<Action>, k: nat)
    requires Run(states, actions) && k < |states|
    ensures Inv(states[k])
  {
    if k == 0 {
    } else {
      RunKeeps(states, actions, k - 1);
      StepKeeps(states[k-1], actions[k-1]);
    }
  }

  /** The invariant holds in every reachable state. */
  lemma ReachableKeeps(s: State)
    requires Reachable(s)
    ensures Inv(s)
  {
    var states, actions :| Run(states, actions) && states[|states|-1] == s;
    RunKeeps(states, actions, |states| - 1);
  }
}
