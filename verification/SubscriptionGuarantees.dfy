/** What a subscriber can rely on, in every reachable state of the subscription protocol. */
module SubscriptionGuarantees {
  import opened MessageKeys
  import opened Replay
  import opened RFSubscribe
  import opened RFSubscribeProofs

  /** The list position of a registered subscriber, with everything known about it. */
  lemma Listed(s: State, id: nat) returns (q: nat)
    requires Inv(s) && id < |s.subs| && s.subs[id].phase.Registered?
    ensures q < |s.channels| == |s.starts| && s.channels[q] == id && s.subs[id].seen <= |s.store|
    ensures RegisteredOk(s.store, PublishedTo(s, q), s.starts[q], s.subs[id])
  {
    assert SubscriberOk(s, id);
    q := Find(s.channels, id);
    assert ListedOk(s, q);
  }

  /** Nothing is lost: once a subscriber is registered and the writer is not between storing and publishing,
      every stored message stamped start or later has been put on its channel. */
  lemma NothingIsLost(s: State, id: nat, m: Message)
    requires Reachable(s) && id < |s.subs| && s.subs[id].phase.Registered? && s.writer.Idle?
    requires m in s.store && m.at >= s.subs[id].start
    ensures m in s.subs[id].sent
  {
    ReachableKeeps(s);
    var q := Listed(s, id);
    assert PublishedTo(s, q) == |s.store|;
    hide Reachable, RegisteredOk, SubscriberOk, ListedOk;
    AllDelivered(s.store, s.starts[q], s.subs[id], m);
  }

  lemma AllDelivered(store: seq<Message>, regStart: int, sub: Subscriber, m: Message)
    requires Chronological(store) && sub.seen <= |store| && RegisteredOk(store, |store|, regStart, sub)
    requires m in store && m.at >= sub.start
    ensures m in sub.sent
  {
    var i :| 0 <= i < |store| && store[i] == m;
    assert m.at >= 1 && (0 < sub.seen <= i ==> store[sub.seen-1].at < m.at);
    hide Chronological;
    var x, y := From(store[..sub.seen], sub.start), From(store[sub.base..|store|], regStart);
    if i < sub.seen {
      Selected(store, 0, sub.seen, i, sub.start);
      assert store[0..sub.seen] == store[..sub.seen];
    } else {
      Selected(store, sub.base, |store|, i, regStart);
    }
    hide From;
    assert m in x || m in y;
    assert sub.sent == x + y;
  }

  lemma {:induction false} Selected(store: seq<Message>, b: nat, n: nat, i: nat, start: int)
    requires b <= i < n <= |store| && store[i].at >= start
    ensures store[i] in From(store[b..n], start)
  {
    FromMembers(store[b..n], start);
    assert store[i] == store[b..n][i-b];
  }

  // ----- Nothing is invented -----

  /** What was sent, and what a pass is about to send, is stored. */
  ghost predicate FromStore(store: seq<Message>, sub: Subscriber) {
    && (forall m :: m in sub.sent ==> m in store)
    && (sub.phase.Replaying? ==> forall m :: m in sub.phase.pending ==> m in store)
  }

  ghost predicate AllFromStore(s: State) {
    forall id :: 0 <= id < |s.subs| ==> FromStore(s.store, s.subs[id])
  }

  lemma {:induction false} IterateMembers(store: seq<Message>, start: nat)
    requires forall i :: 0 <= i < |store| ==> store[i].at >= 0
    ensures forall m :: m in RFIterate(store, start) ==> m in store
  {
    hide GenRFKey, KeyLess;
    if store == [] {
    } else {
      IterateMembers(store[..|store|-1], start);
      assert store == store[..|store|-1] + [store[|store|-1]];
    }
  }

  lemma StartedFromStore(s: State, id: nat)
    requires Enabled(s, StartPass(id)) && AllFromStore(s)
    ensures AllFromStore(Next(s, StartPass(id)))
  {
    hide RFIterate;
    IterateMembers(s.store, s.subs[id].phase.from);
    var t := Next(s, StartPass(id));
    forall k | 0 <= k < |t.subs| ensures FromStore(t.store, t.subs[k]) {
      assert FromStore(s.store, s.subs[k]);
    }
  }

  lemma StepFromStore(s: State, a: Action)
    requires Enabled(s, a) && AllFromStore(s)
    ensures AllFromStore(Next(s, a))
  {
    hide RFIterate, Chronological;
    var t := Next(s, a);
    if a.StartPass? {
      StartedFromStore(s, a.id);
    } else {
      forall k | 0 <= k < |t.subs| ensures FromStore(t.store, t.subs[k]) {
        if k < |s.subs| {
          assert FromStore(s.store, s.subs[k]);
        }
      }
    }
  }

  lemma {:induction false} RunFromStore(states: seq<State>, actions: seq<Action>, n: nat)
    requires Run(states, actions) && n < |states|
    ensures AllFromStore(states[n])
  {
    if n == 0 {
    } else {
      RunFromStore(states, actions, n - 1);
      hide Enabled, Next, AllFromStore;
      StepFromStore(states[n-1], actions[n-1]);
    }
  }

  /** Only stored messages are ever put on a channel, in whatever phase its subscriber is. */
  lemma NothingIsInvented(s: State, id: nat, m: Message)
    requires Reachable(s) && id < |s.subs| && m in s.subs[id].sent
    ensures m in s.store
  {
    var states, actions :| Run(states, actions) && states[|states|-1] == s;
    RunFromStore(states, actions, |states| - 1);
    assert FromStore(s.store, s.subs[id]);
  }

  // ----- What a consumer takes -----

  /** The messages the consumer of a channel has taken in the first n steps of a run. */
  ghost function Taken(states: seq<State>, actions: seq<Action>, id: nat, n: nat): seq<Message>
    requires Run(states, actions) && n <= |actions|
  {
    if n == 0 then []
    else
      var before := Taken(states, actions, id, n - 1);
      assert Enabled(states[n-1], actions[n-1]);
      if actions[n-1] == Take(id) then before + [states[n-1].subs[id].queue[0]] else before
  }

  /** Every step but taking adds the same to what is queued and to what was sent. */
  lemma QueueStep(s: State, a: Action, id: nat) returns (more: seq<Message>)
    requires Enabled(s, a) && id < |s.subs|
    ensures id < |Next(s, a).subs|
    ensures Next(s, a).subs[id].sent == s.subs[id].sent + more
    ensures Next(s, a).subs[id].queue == (if a == Take(id) then s.subs[id].queue[1..] else s.subs[id].queue) + more
    ensures a == Take(id) ==> more == []
  {
    hide RFIterate, Chronological;
    var sub, t := s.subs[id], Next(s, a);
    more := t.subs[id].sent[|sub.sent|..];
  }

  lemma NewQueue(s: State, a: Action, id: nat)
    requires Enabled(s, a) && |s.subs| <= id < |Next(s, a).subs|
    ensures Next(s, a).subs[id].sent == [] == Next(s, a).subs[id].queue && a != Take(id)
  {
    hide RFIterate, Chronological;
  }

  ghost predicate Accounted(s: State, id: nat, taken: seq<Message>) {
    if id < |s.subs| then taken + s.subs[id].queue == s.subs[id].sent else taken == []
  }

  lemma StepIsAccounted(s: State, a: Action, id: nat, taken: seq<Message>)
    requires Enabled(s, a) && Accounted(s, id, taken)
    ensures a == Take(id) ==> id < |s.subs| && s.subs[id].queue != []
    ensures Accounted(Next(s, a), id, if a == Take(id) then taken + [s.subs[id].queue[0]] else taken)
  {
    assert a == Take(id) ==> id < |s.subs| && s.subs[id].queue != [];
    hide Enabled, Next;
    if id < |s.subs| {
      var more := QueueStep(s, a, id);
      var queue := s.subs[id].queue;
      assert a == Take(id) ==> queue == [queue[0]] + queue[1..];
    } else if id < |Next(s, a).subs| {
      NewQueue(s, a, id);
    }
  }

  /** What a consumer has taken and what is still queued for it are together what was put on its channel, in that
      order. */
  lemma {:induction false} TakenAndQueued(states: seq<State>, actions: seq<Action>, id: nat, n: nat)
    requires Run(states, actions) && n <= |actions|
    ensures Accounted(states[n], id, Taken(states, actions, id, n))
    ensures id < |states[n].subs| ==>
              Taken(states, actions, id, n) + states[n].subs[id].queue == states[n].subs[id].sent
    ensures id >= |states[n].subs| ==> Taken(states, actions, id, n) == []
    ensures n > 0 && actions[n-1] != Take(id) ==> Taken(states, actions, id, n) == Taken(states, actions, id, n - 1)
    ensures n > 0 && actions[n-1] == Take(id) ==>
              && id < |states[n-1].subs| && states[n-1].subs[id].queue != []
              && Taken(states, actions, id, n) == Taken(states, actions, id, n - 1) + [states[n-1].subs[id].queue[0]]
  {
    if n == 0 {
    } else {
      hide Enabled, Next;
      TakenAndQueued(states, actions, id, n - 1);
      StepIsAccounted(states[n-1], actions[n-1], id, Taken(states, actions, id, n - 1));
    }
  }

  /** So a consumer takes stored messages only, with timestamps that never go back, and at most one twice. */
  lemma {:induction false} TakenIsInOrder(states: seq<State>, actions: seq<Action>, id: nat)
    requires Run(states, actions) && id < |states[|actions|].subs|
    ensures var taken := Taken(states, actions, id, |actions|);
            && taken <= states[|actions|].subs[id].sent && OrderedOnce(taken)
            && (forall m :: m in taken ==> m in states[|actions|].store)
            && (forall i, j :: 0 <= i < j < |taken| ==>
                  taken[i].at < taken[j].at || (j == i + 1 && taken[i] == taken[j]))
            && (forall i, j :: 0 < i < j < |taken| ==> !(taken[i-1] == taken[i] && taken[j-1] == taken[j]))
  {
    var s, taken := states[|actions|], Taken(states, actions, id, |actions|);
    TakenAndQueued(states, actions, id, |actions|);
    RunFromStore(states, actions, |actions|);
    RunKeeps(states, actions, |actions|);
    assert SubscriberOk(s, id) && FromStore(s.store, s.subs[id]);
    var sent := s.subs[id].sent;
    hide Run, Taken, Inv, SubscriberOk;
    var d :| OrderedExcept(sent, d);
    assert OrderedExcept(taken, d) by {
      assert forall i :: 0 <= i < |taken| ==> taken[i] == sent[i];
    }
    OnceInFull(taken, d);
    forall m | m in taken ensures m in s.store {
      assert m in sent;
    }
  }

  // ----- Order -----

  lemma OnceInFull(sent: seq<Message>, d: nat)
    requires OrderedExcept(sent, d)
    ensures forall i, j :: 0 <= i < j < |sent| ==> sent[i].at < sent[j].at || (j == i + 1 && sent[i] == sent[j])
    ensures forall i, j :: 0 < i < j < |sent| ==> !(sent[i-1] == sent[i] && sent[j-1] == sent[j])
  {
    forall i, j | 0 < i < j < |sent| ensures !(sent[i-1] == sent[i] && sent[j-1] == sent[j]) {
      assert sent[i-1].at < sent[i].at || i == d + 1;
      assert sent[j-1].at < sent[j].at || j == d + 1;
    }
  }

  /** In every phase, even after unsubscribing, timestamps on a channel never go back and at most one message
      was put on it twice. */
  lemma OrderIsKept(s: State, id: nat)
    requires Reachable(s) && id < |s.subs|
    ensures OrderedOnce(s.subs[id].sent)
    ensures forall i, j :: 0 <= i < j < |s.subs[id].sent| ==>
              || s.subs[id].sent[i].at < s.subs[id].sent[j].at
              || (j == i + 1 && s.subs[id].sent[i] == s.subs[id].sent[j])
    ensures var sent := s.subs[id].sent;
            forall i, j :: 0 < i < j < |sent| ==> !(sent[i-1] == sent[i] && sent[j-1] == sent[j])
  {
    ReachableKeeps(s);
    assert SubscriberOk(s, id);
    hide Reachable, Inv, SubscriberOk;
    var d :| OrderedExcept(s.subs[id].sent, d);
    OnceInFull(s.subs[id].sent, d);
  }

  /** How far a registered subscriber has got in the store. */
  function Progress(s: State, q: nat): nat
    requires q < |s.channels| && s.channels[q] < |s.subs|
  {
    if s.subs[s.channels[q]].seen < PublishedTo(s, q) then PublishedTo(s, q) else s.subs[s.channels[q]].seen
  }

  /** Registered without having replayed anything in the last pass: the start time is then 1, and a message that
      was already replayed, or that is older than asked for, can slip in. */
  ghost predicate SlipsIn(s: State, q: nat)
    requires q < |s.channels| == |s.starts| && s.channels[q] < |s.subs|
  {
    var sub := s.subs[s.channels[q]];
    s.starts[q] == 1 &&
    exists k :: sub.base <= k < PublishedTo(s, q) && k < |s.store| && (k < sub.seen || s.store[k].at < sub.start)
  }

  /** A registered subscriber was sent exactly the stored messages stamped start or later, once each and in
      order, up to where it has got -- unless, and only unless, some message slipped in. */
  lemma ExactlyOnceIff(s: State, id: nat) returns (q: nat)
    requires Reachable(s) && id < |s.subs| && s.subs[id].phase.Registered?
    ensures q < |s.channels| == |s.starts| && s.channels[q] == id && Progress(s, q) <= |s.store|
    ensures s.subs[id].sent == From(s.store[..Progress(s, q)], s.subs[id].start) <==> !SlipsIn(s, q)
    ensures s.starts[q] > 1 ==> !SlipsIn(s, q)
    ensures s.writer.Idle? ==> Progress(s, q) == |s.store|
    ensures var all := if s.writer.Idle? || s.store == [] then |s.store| else |s.store| - 1;
            var published := if s.writer.Publishing? && q < s.writer.next then all + 1 else all;
            && Progress(s, q) == (if s.subs[id].seen < published then published else s.subs[id].seen)
            && (SlipsIn(s, q) <==>
                  && s.starts[q] == 1
                  && exists k :: s.subs[id].base <= k < published && k < |s.store|
                       && (k < s.subs[id].seen || s.store[k].at < s.subs[id].start))
  {
    ReachableKeeps(s);
    q := Listed(s, id);
    var sub, n := s.subs[id], PublishedTo(s, q);
    if s.starts[q] > 1 {
      SentInOrder(s.store, n, s.starts[q], sub);
    } else {
      SentFromOne(s.store, n, sub);
    }
  }

  lemma SentInOrder(store: seq<Message>, n: nat, regStart: int, sub: Subscriber)
    requires Chronological(store) && sub.seen <= |store| && RegisteredOk(store, n, regStart, sub) && regStart > 1
    ensures sub.sent == From(store[..if sub.seen < n then n else sub.seen], sub.start)
  {
    var e, b := sub.seen, sub.base;
    if e < n {
      hide From;
      FromSplit(store[..n], e, sub.start);
      assert store[..n][..e] == store[..e] && store[..n][e..] == store[e..n];
      RestIsLater(store[..n], e, sub.start);
      LaterSlice(store, b, e, n);
    } else {
      hide From;
      LaterSlice(store, b, e, n);
    }
  }

  /** Messages from base on that are newer than message e-1. */
  lemma LaterSlice(store: seq<Message>, b: nat, e: nat, n: nat)
    requires Chronological(store) && b <= n <= |store| && b <= e <= b + 1 && 0 < e <= |store|
    ensures From(store[b..n], store[e-1].at + 1) == if e < n then store[e..n] else []
  {
    var start := store[e-1].at + 1;
    if b == e {
      FromAll(store[b..n], start);
    } else if n > b {
      FromAfter(store[b..n], 1);
      assert store[b..n][0] == store[e-1] && store[b..n][1..] == store[e..n];
    }
  }

  lemma SentFromOne(store: seq<Message>, n: nat, sub: Subscriber)
    requires Chronological(store) && sub.seen <= |store| && RegisteredOk(store, n, 1, sub)
    ensures sub.sent == From(store[..if sub.seen < n then n else sub.seen], sub.start) <==>
            !exists k :: sub.base <= k < n && (k < sub.seen || store[k].at < sub.start)
  {
    SentInTwo(store, n, sub);
    Compare(store, n, sub);
    hide RegisteredOk, Chronological;
  }

  /** What was replayed, then what was published since. */
  lemma SentInTwo(store: seq<Message>, n: nat, sub: Subscriber)
    requires Chronological(store) && sub.seen <= |store| && RegisteredOk(store, n, 1, sub)
    ensures sub.base <= n <= |store|
    ensures var head := From(store[..sub.seen], sub.start);
            && sub.sent == head + store[sub.base..n]
            && (sub.seen < n ==> From(store[..n], sub.start) == head + From(store[sub.seen..n], sub.start))
            && (sub.seen < n ==> |From(store[sub.seen..n], sub.start)| <= n - sub.seen)
  {
    var e := sub.seen;
    FromAll(store[sub.base..n], 1);
    if e < n {
      FromSplit(store[..n], e, sub.start);
      assert store[..n][..e] == store[..e] && store[..n][e..] == store[e..n];
      FromMembers(store[e..n], sub.start);
    }
    hide From;
  }

  lemma Compare(store: seq<Message>, n: nat, sub: Subscriber)
    requires sub.base <= n <= |store| && sub.base <= sub.seen <= sub.base + 1 && sub.seen <= |store|
    requires var head := From(store[..sub.seen], sub.start);
             && sub.sent == head + store[sub.base..n]
             && (sub.seen < n ==> From(store[..n], sub.start) == head + From(store[sub.seen..n], sub.start))
             && (sub.seen < n ==> |From(store[sub.seen..n], sub.start)| <= n - sub.seen)
    ensures sub.sent == From(store[..if sub.seen < n then n else sub.seen], sub.start) <==>
            !exists k :: sub.base <= k < n && (k < sub.seen || store[k].at < sub.start)
  {
    var e, b := sub.seen, sub.base;
    var head, tail := From(store[..e], sub.start), store[b..n];
    if b == e {
      SameIffAllLater(head, tail, sub.start);
      hide From;
      assert forall k :: b <= k < n ==> store[k] == tail[k-b];
      assert n == b ==> tail == [] && head + tail == head;
    } else {
      hide From;
      assert n == b ==> head + tail == head;
      assert n > b ==> |sub.sent| == |head| + (n - b) && b < sub.seen && store[b].at == store[b].at;
    }
  }

  lemma {:induction false} SameIffAllLater(head: seq<Message>, tail: seq<Message>, start: int)
    ensures head + tail == head + From(tail, start) <==> forall k :: 0 <= k < |tail| ==> tail[k].at >= start
  {
    FromMembers(tail, start);
    if forall k :: 0 <= k < |tail| ==> tail[k].at >= start {
      FromAll(tail, start);
    } else {
      assert |head + tail| != |head + From(tail, start)|;
    }
  }
}
