/** The steps of the subscription protocol in full: when each can happen and all that it changes, and what an
    unsubscribed channel can rely on. */
module SubscriptionLaws {
  import opened MessageKeys
  import opened Replay
  import opened RFSubscribe
  import opened RFSubscribeProofs

  /** The writer stores a message stamped later than all before it, then publishes it while nobody else holds the
      lock, to one listed channel after the other. */
  lemma WriterCan(s: State, m: Message)
    ensures Enabled(s, Put(m)) <==>
              && s.writer.Idle?
              && (forall i :: 0 <= i < |s.store| ==> 1 <= s.store[i].at <= 9223372036854 && s.store[i].at < m.at)
              && 1 <= m.at <= 9223372036854
              && (forall i, j :: 0 <= i < j < |s.store| ==> s.store[i].at < s.store[j].at)
    ensures Enabled(s, PublishLock) <==> s.writer.Stored? && s.lock.Free?
    ensures Enabled(s, PublishUnlock) <==> s.writer.Publishing? && s.writer.next == |s.channels|
    ensures Inv(s) ==>
              (Enabled(s, PublishNext) <==>
                 && s.writer.Publishing? && s.writer.next < |s.channels|
                 && s.channels[s.writer.next] < |s.subs|
                 && (s.store[|s.store|-1].at >= s.starts[s.writer.next] ==>
                       |s.subs[s.channels[s.writer.next]].queue| < 100))
  {
    var store := s.store + [m];
    assert forall i :: 0 <= i < |s.store| ==> store[i] == s.store[i];
    assert store[|s.store|] == m;
    if Inv(s) && s.writer.Publishing? && s.writer.next < |s.channels| {
      assert ListedOk(s, s.writer.next);
    }
  }

  /** A pass starts when nobody holds the lock; it sends while the channel has room, gives up the lock at the first
      message that finds the channel full, and ends when everything is sent. */
  lemma SubscriberCan(s: State, id: nat, start: int)
    requires Inv(s)
    ensures Enabled(s, Subscribe(start)) <==> 0 <= start <= 9223372036854
    ensures Enabled(s, Unsubscribe(id)) <==> s.lock.Free? && id < |s.subs|
    ensures Enabled(s, StartPass(id)) <==> s.lock.Free? && id < |s.subs| && s.subs[id].phase.Waiting?
    ensures id < |s.subs| ==>
              var (p, n) := (s.subs[id].phase, |s.subs[id].queue|);
              && (Enabled(s, ReplaySend(id)) <==> p.Replaying? && p.pending != [] && n < 100)
              && (Enabled(s, ReplayUnlock(id)) <==> p.Replaying? && p.pending != [] && n >= 100 && p.locked)
              && (Enabled(s, EndPass(id)) <==> p.Replaying? && p.pending == [])
              && (Enabled(s, Take(id)) <==> n > 0)
    ensures id >= |s.subs| ==>
              && !Enabled(s, ReplaySend(id)) && !Enabled(s, ReplayUnlock(id))
              && !Enabled(s, EndPass(id)) && !Enabled(s, Take(id))
  {
    if id < |s.subs| {
      assert SubscriberOk(s, id);
    }
    hide SubscriberOk, ListedOk;
  }

  /** What the writer's steps change. */
  lemma WriterDoes(s: State, m: Message)
    ensures Enabled(s, Put(m)) ==> Next(s, Put(m)) == s.(store := s.store + [m], writer := Stored)
    ensures Enabled(s, PublishLock) ==> Next(s, PublishLock) == s.(lock := ByWriter, writer := Publishing(0))
    ensures Enabled(s, PublishUnlock) ==> Next(s, PublishUnlock) == s.(lock := Free, writer := Idle)
    ensures Enabled(s, PublishNext) ==>
              var (t, q, last) := (Next(s, PublishNext), s.writer.next, s.store[|s.store|-1]);
              && t == s.(writer := Publishing(q + 1), subs := t.subs) && |t.subs| == |s.subs|
              && forall k :: 0 <= k < |s.subs| ==>
                   t.subs[k] == if k == s.channels[q] && last.at >= s.starts[q]
                                then s.subs[k].(queue := s.subs[k].queue + [last], sent := s.subs[k].sent + [last])
                                else s.subs[k]
  {
  }

  /** A pass is to replay what the store holds from its start time on. */
  lemma PassStarts(s: State, id: nat)
    requires Enabled(s, StartPass(id)) && s.subs[id].phase.from <= 9223372036855
    ensures var (from, t) := (s.subs[id].phase.from, Next(s, StartPass(id)));
            && t == s.(lock := ByCatchUp(id), subs := t.subs)
            && t.subs == s.subs[id := s.subs[id].(seen := |s.store|, phase := Replaying(From(s.store, from), 0, true))]
  {
    hide RFIterate;
    IterateIsFrom(s.store, s.subs[id].phase.from);
  }

  /** It sends message by message, and gives up the lock without sending; of the subscribers only its own changes. */
  lemma PassSends(s: State, id: nat)
    requires id < |s.subs|
    ensures Enabled(s, ReplaySend(id)) ==>
              var (sub, m) := (s.subs[id], s.subs[id].phase.pending[0]);
              Next(s, ReplaySend(id))
              == s.(subs := s.subs[id := sub.(queue := sub.queue + [m], sent := sub.sent + [m],
                      phase := Replaying(sub.phase.pending[1..], m.at, sub.phase.locked))])
    ensures Enabled(s, ReplayUnlock(id)) ==>
              var sub := s.subs[id];
              Next(s, ReplayUnlock(id))
              == s.(lock := Free,
                    subs := s.subs[id := sub.(phase := Replaying(sub.phase.pending, sub.phase.lastAt, false))])
  {
    hide RFIterate, Chronological, KeyLess, From;
  }

  /** A pass that kept the lock registers its channel from just behind the last message sent; one that gave it up is
      followed by another from there.  A consumer takes the oldest message of its channel. */
  lemma PassEnds(s: State, id: nat)
    requires id < |s.subs|
    ensures Enabled(s, EndPass(id)) && !s.subs[id].phase.locked ==>
              Next(s, EndPass(id))
              == s.(subs := s.subs[id := s.subs[id].(phase := Waiting(s.subs[id].phase.lastAt + 1))])
    ensures Enabled(s, EndPass(id)) && s.subs[id].phase.locked ==>
              var t := Next(s, EndPass(id));
              && t == s.(lock := Free, channels := s.channels + [id],
                         starts := s.starts + [s.subs[id].phase.lastAt + 1],
                         subs := s.subs[id := s.subs[id].(phase := Registered, base := t.subs[id].base)])
              && t.subs[id].base == if s.writer.Idle? || s.store == [] then |s.store| else |s.store| - 1
    ensures Enabled(s, Take(id)) ==>
              Next(s, Take(id)) == s.(subs := s.subs[id := s.subs[id].(queue := s.subs[id].queue[1..])])
  {
  }

  /** A new subscriber is to be sent everything from its start time on, and has been sent nothing. */
  lemma SubscribeDoes(s: State, start: int)
    requires 0 <= start <= 9223372036854
    ensures Enabled(s, Subscribe(start))
    ensures Next(s, Subscribe(start)) == s.(subs := s.subs + [Subscriber(start, Waiting(start), [], [], 0, 0)])
  {
  }

  // ----- Unsubscribing -----

  /** A listed channel leaves both lists at its position and is closed; the other channels stay in order, with their
      start times.  A channel that is not listed changes nothing. */
  lemma UnsubscribeDoes(s: State, id: nat)
    requires Inv(s) && Enabled(s, Unsubscribe(id))
    ensures var t := Next(s, Unsubscribe(id));
            && (id !in s.channels ==> t == s)
            && (id in s.channels ==> t.subs == s.subs[id := s.subs[id].(phase := Closed)])
            && t == s.(channels := t.channels, starts := t.starts, subs := t.subs)
    ensures forall q :: 0 <= q < |s.channels| && s.channels[q] == id ==>
              var t := Next(s, Unsubscribe(id));
              && t.channels == s.channels[..q] + s.channels[q+1..]
              && t.starts == s.starts[..q] + s.starts[q+1..]
    ensures id !in Next(s, Unsubscribe(id)).channels
  {
    var i := Find(s.channels, id);
    assert forall q :: 0 <= q < |s.channels| && s.channels[q] == id ==> q == i;
    UnsubscribeKeeps(s, id);
    var t := Next(s, Unsubscribe(id));
    if id in s.channels {
      assert SubscriberOk(t, id);
    }
    hide SubscriberOk, ListedOk;
  }

  /** A closed channel stays closed, and nothing is sent on it. */
  lemma ClosedStep(s: State, a: Action, id: nat)
    requires Inv(s) && Enabled(s, a) && id < |s.subs| && s.subs[id].phase.Closed?
    ensures var t := Next(s, a);
            id < |t.subs| && t.subs[id].phase.Closed? && t.subs[id].sent == s.subs[id].sent
  {
    assert SubscriberOk(s, id);
    hide SubscriberOk, ListedOk, Chronological, RFIterate;
    if a.PublishNext? {
      assert s.channels[s.writer.next] in s.channels;
    }
  }

  /** In every run: from the moment a channel is closed on, nothing is ever sent on it. */
  lemma {:induction false} NothingAfterClosing(states: seq<State>, actions: seq<Action>, id: nat, j: nat, k: nat)
    requires Run(states, actions) && j <= k < |states|
    requires id < |states[j].subs| && states[j].subs[id].phase.Closed?
    ensures id < |states[k].subs| && states[k].subs[id].phase.Closed?
    ensures states[k].subs[id].sent == states[j].subs[id].sent
  {
    if j == k {
    } else {
      NothingAfterClosing(states, actions, id, j, k - 1);
      RunKeeps(states, actions, k - 1);
      hide Inv, Enabled, Next;
      ClosedStep(states[k-1], actions[k-1], id);
    }
  }
}
