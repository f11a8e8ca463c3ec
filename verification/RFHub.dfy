/** The subscriber lists as they are worked on: parallel slices of channels and start times, changed in place, and
    the passes of one catch-up.  Everything here but the blocking sends of a catch-up runs under the lock; between
    its passes the store grows as it pleases. */
module RFHub {
  import opened MessageKeys
  import opened Replay
  import opened RFSubscribe
  import opened RFSubscribeProofs

  /** What one pass meets: the store as it is when the pass starts, and whether each send finds room. */
  datatype View = View(store: seq<Message>, room: seq<bool>)

  /** Each of the first n sends of the pass finds room. */
  predicate AllFit(view: View, n: int): (b: bool)
    ensures b <==> forall k :: 0 <= k < n && k < |view.room| ==> view.room[k]
  {
    forall k :: 0 <= k < n && k < |view.room| ==> view.room[k]
  }

  predicate Distinct(list: seq<nat>) { forall p, q :: 0 <= p < q < |list| ==> list[p] != list[q] }

  /** After the replay of the store in view, the state of a subscriber that waits for its next pass. */
  ghost predicate Between(store: seq<Message>, start: int, from: int, replayed: seq<Message>) {
    WaitingOk(store, Subscriber(start, Waiting(from), [], replayed, |store|, 0))
  }

  /** Where a channel that registers after replaying the store takes over, when an earlier pass had seen only part
      of it: right behind the last message replayed, or at 1 if the last pass had nothing to replay. */
  ghost function TakeOver(seen: seq<Message>, store: seq<Message>, start: int): int {
    var all := From(store, start);
    if |all| <= |From(seen, start)| then 1 else all[|all|-1].at + 1
  }

  class Hub {
    var rfSubscribers: seq<nat>
    var rfSubscriberStart: seq<int>
    var closed: set<nat>
    /** Everything ever put on each channel. */
    var sent: map<nat, seq<Message>>

    ghost predicate Valid()
      reads this
    {
      && |rfSubscribers| == |rfSubscriberStart|
      && Distinct(rfSubscribers)
      && (forall q :: 0 <= q < |rfSubscribers| ==> rfSubscribers[q] in sent && rfSubscribers[q] !in closed)
    }

    constructor ()
      ensures Valid() && rfSubscribers == [] && closed == {} && sent == map[]
    {
      rfSubscribers, rfSubscriberStart, closed, sent := [], [], {}, map[];
    }

    /** Hand a message to every registered channel whose start time it has reached, once. */
    method RFPublish(m: Message)
      requires Valid()
      modifies this`sent
      ensures Valid() && sent.Keys == old(sent).Keys
      ensures forall q :: 0 <= q < |rfSubscribers| ==>
                sent[rfSubscribers[q]]
                  == old(sent)[rfSubscribers[q]] + if m.at >= rfSubscriberStart[q] then [m] else []
      ensures forall c :: c in sent && c !in rfSubscribers ==> sent[c] == old(sent)[c]
    {
      for i := 0 to |rfSubscribers|
        invariant Valid() && sent.Keys == old(sent).Keys
        invariant forall q :: 0 <= q < i ==>
                    sent[rfSubscribers[q]]
                      == old(sent)[rfSubscribers[q]] + if m.at >= rfSubscriberStart[q] then [m] else []
        invariant forall q :: i <= q < |rfSubscribers| ==> sent[rfSubscribers[q]] == old(sent)[rfSubscribers[q]]
        invariant forall c :: c in sent && c !in rfSubscribers ==> sent[c] == old(sent)[c]
      {
        var ch := rfSubscribers[i];
        assert forall q :: 0 <= q < |rfSubscribers| && q != i ==> rfSubscribers[q] != ch;
        if m.at >= rfSubscriberStart[i] {
          sent := sent[ch := sent[ch] + [m]];
        }
      }
    }

    /** Close a channel and take it out of both lists, wherever it is; the loop goes on behind it. */
    method RFUnsubscribe(c: nat)
      requires Valid()
      modifies this`rfSubscribers, this`rfSubscriberStart, this`closed
      ensures Valid()
      ensures var i := Find(old(rfSubscribers), c);
              if i == |old(rfSubscribers)| then
                && rfSubscribers == old(rfSubscribers)
                && rfSubscriberStart == old(rfSubscriberStart)
                && closed == old(closed)
              else
                && rfSubscribers == Without(old(rfSubscribers), i)
                && rfSubscriberStart == Without(old(rfSubscriberStart), i)
                && closed == old(closed) + {c}
    {
      ghost var f := Find(rfSubscribers, c);
      ghost var n := |rfSubscribers|;
      assert forall q :: 0 <= q < n && q != f ==> rfSubscribers[q] != c;
      var i := 0;
      while i < |rfSubscribers|
        invariant |rfSubscribers| == |rfSubscriberStart| <= n
        invariant i <= f ==> rfSubscribers == old(rfSubscribers) && rfSubscriberStart == old(rfSubscriberStart)
                             && closed == old(closed)
        invariant i > f ==> f < n && rfSubscribers == Without(old(rfSubscribers), f)
                            && rfSubscriberStart == Without(old(rfSubscriberStart), f) && closed == old(closed) + {c}
        decreases |rfSubscribers| - i
      {
        if rfSubscribers[i] == c {
          closed := closed + {c};
          if i + 1 == |rfSubscribers| {
            rfSubscribers := rfSubscribers[..i];
            rfSubscriberStart := rfSubscriberStart[..i];
          } else {
            rfSubscribers := rfSubscribers[..i] + rfSubscribers[i+1..];
            rfSubscriberStart := rfSubscriberStart[..i] + rfSubscriberStart[i+1..];
          }
        }
        i := i + 1;
      }
    }

    /** One pass: send what is stored from start on, and note whether the lock was held all the time. */
    method DoCatchUp(c: nat, start: nat, view: View) returns (lastAt: int, locked: bool)
      requires Valid() && c in sent && Chronological(view.store) && |view.room| >= |RFIterate(view.store, start)|
      modifies this`sent
      ensures Valid() && sent == old(sent)[c := old(sent)[c] + RFIterate(view.store, start)]
      ensures var all := RFIterate(view.store, start);
              && lastAt == (if all == [] then 0 else all[|all|-1].at)
              && (locked <==> forall k :: 0 <= k < |all| ==> view.room[k])
    {
      hide RFIterate;
      var all := RFIterate(view.store, start);
      lastAt, locked := 0, true;
      for k := 0 to |all|
        invariant c in sent && sent.Keys == old(sent).Keys && sent[c] == old(sent)[c] + all[..k]
        invariant forall d :: d in sent && d != c ==> sent[d] == old(sent)[d]
        invariant lastAt == if k == 0 then 0 else all[k-1].at
        invariant locked <==> forall j :: 0 <= j < k ==> view.room[j]
      {
        lastAt := all[k].at;
        if !view.room[k] {
          locked := false;
        }
        assert all[..k+1] == all[..k] + [all[k]];
        sent := sent[c := sent[c] + [all[k]]];
      }
      assert all[..|all|] == all;
    }

    /** Register a channel that has caught up. */
    method Register(c: nat, lastAt: int)
      requires Valid() && c in sent && c !in closed && c !in rfSubscribers
      modifies this`rfSubscribers, this`rfSubscriberStart
      ensures Valid() && rfSubscribers == old(rfSubscribers) + [c]
      ensures rfSubscriberStart == old(rfSubscriberStart) + [lastAt + 1]
    {
      rfSubscribers := rfSubscribers + [c];
      rfSubscriberStart := rfSubscriberStart + [lastAt + 1];
    }

    /** A pass from where the last one stopped, after which all of the store in view has been sent. */
    method Pass(c: nat, start: nat, from: int, ghost seen: seq<Message>, view: View) returns (lastAt: int, locked: bool)
      requires Valid() && c in sent && Between(seen, start, from, sent[c]) && start <= MAX_AT
      requires seen <= view.store && Chronological(view.store) && |view.room| >= |view.store|
      modifies this`sent
      ensures Valid() && sent == old(sent)[c := From(view.store, start)]
      ensures From(view.store, start) == From(seen, start) || view.store != []
      ensures lastAt == if From(view.store, start) == From(seen, start) then 0 else view.store[|view.store|-1].at
      ensures !locked ==> Between(view.store, start, lastAt + 1, sent[c])
      ensures locked <==> AllFit(view, |From(view.store, start)| - |From(seen, start)|)
    {
      hide RFIterate, Between, From, TakeOver, Chronological;
      ghost var replayed := sent[c];
      ghost var all := NextPass(seen, view.store, start, from, sent[c]);
      TakesOver(seen, view.store, start);
      lastAt, locked := DoCatchUp(c, from, view);
      assert |replayed + all| == |From(view.store, start)|;
    }

    /** A pass, and if it ran locked from end to end the registration that follows. */
    method PassAndRegister(c: nat, start: nat, from: int, ghost seen: seq<Message>, view: View)
        returns (next: int, registered: bool)
      requires Valid() && c in sent && c !in closed && c !in rfSubscribers && Between(seen, start, from, sent[c])
      requires start <= MAX_AT && seen <= view.store && Chronological(view.store) && |view.room| >= |view.store|
      modifies this`sent, this`rfSubscribers, this`rfSubscriberStart
      ensures Valid() && sent == old(sent)[c := From(view.store, start)]
      ensures !registered ==>
                && rfSubscribers == old(rfSubscribers) && rfSubscriberStart == old(rfSubscriberStart)
                && Between(view.store, start, next, sent[c])
      ensures registered <==> AllFit(view, |From(view.store, start)| - |From(seen, start)|)
      ensures From(view.store, start) == From(seen, start) || view.store != []
      ensures registered ==>
                && rfSubscribers == old(rfSubscribers) + [c]
                && rfSubscriberStart == old(rfSubscriberStart)
                     + [if From(view.store, start) == From(seen, start) then 1 else view.store[|view.store|-1].at + 1]
    {
      hide RFIterate, Between, From, Chronological, AllFit;
      var lastAt;
      lastAt, registered := Pass(c, start, from, seen, view);
      if registered {
        Register(c, lastAt);
      }
      next := lastAt + 1;
    }

    /** Pass after pass, over a store that only grows, until one ran locked from end to end; then register.  However
        the passes were interrupted, what has been sent is exactly what was stored, from the start asked for, when the
        last of them began: each message once and in order. */
    method CatchUp(c: nat, start: nat, views: seq<View>) returns (registered: bool, used: nat)
      requires Valid() && c in sent && c !in closed && c !in rfSubscribers && sent[c] == []
      requires start <= 9223372036854 && views != []
      requires forall k :: 0 <= k < |views| ==> Chronological(views[k].store) && |views[k].room| >= |views[k].store|
      requires forall j, k :: 0 <= j < k < |views| ==> views[j].store <= views[k].store
      modifies this`sent, this`rfSubscribers, this`rfSubscriberStart
      ensures Valid() && 0 < used <= |views| && (registered || used == |views|)
      ensures sent == old(sent)[c := From(views[used-1].store, start)]
      ensures !registered ==> rfSubscribers == old(rfSubscribers) && rfSubscriberStart == old(rfSubscriberStart)
      ensures registered && used == 1 <==> AllFit(views[0], |From(views[0].store, start)|)
      ensures forall j :: 0 < j < used ==>
                (registered && j == used - 1 <==>
                   AllFit(views[j], |From(views[j].store, start)| - |From(views[j-1].store, start)|))
      ensures registered ==>
                var seen, store := if used == 1 then [] else views[used-2].store, views[used-1].store;
                && rfSubscribers == old(rfSubscribers) + [c]
                && (From(store, start) == From(seen, start) || store != [])
                && rfSubscriberStart == old(rfSubscriberStart)
                     + [if From(store, start) == From(seen, start) then 1 else store[|store|-1].at + 1]
    {
      hide RFIterate, Between, From, TakeOver, AllFit, Chronological;
      var lastAt: int := start;
      registered, used := false, 0;
      ghost var seen: seq<Message> := [];
      NothingYet(start);
      while used < |views|
        invariant Valid() && used <= |views| && c in sent && c !in closed && c !in rfSubscribers && !registered
        invariant seen == if used == 0 then [] else views[used-1].store
        invariant Between(seen, start, lastAt, sent[c])
        invariant sent == old(sent)[c := From(seen, start)]
        invariant rfSubscribers == old(rfSubscribers) && rfSubscriberStart == old(rfSubscriberStart)
        invariant used > 0 ==> !AllFit(views[0], |From(views[0].store, start)|)
        invariant forall j :: 0 < j < used ==>
                    !AllFit(views[j], |From(views[j].store, start)| - |From(views[j-1].store, start)|)
      {
        lastAt, registered := PassAndRegister(c, start, lastAt, seen, views[used]);
        used := used + 1;
        if registered {
          return;
        }
        seen := views[used-1].store;
      }
    }
  }

  lemma {:induction false} NothingYet(start: nat)
    ensures Between([], start, start, []) && From([], start) == []
  {
  }

  /** A pass from where the last one stopped sends the rest. */
  lemma {:induction false} PassSendsTheRest(seen: seq<Message>, store: seq<Message>, start: nat, from: int,
                                            replayed: seq<Message>)
    requires Between(seen, start, from, replayed) && seen <= store && Chronological(store) && start <= MAX_AT
    ensures from >= 0 && replayed == From(seen, start)
    ensures replayed + RFIterate(store, from) == From(store, start)
  {
    var sub := Subscriber(start, Waiting(from), [], replayed, |seen|, 0);
    assert seen == store[..|seen|];
    assert seen[..|seen|] == seen;
    assert seen != [] ==> seen[|seen|-1] == store[|seen|-1];
    hide From, RFIterate;
    assert WaitingOk(store, sub);
    PassReplaysTheRest(store, sub);
  }

  /** Once something has been sent, the next pass may go on right behind it. */
  lemma {:induction false} GoesOnBehind(store: seq<Message>, start: nat)
    requires Chronological(store) && From(store, start) != []
    ensures Between(store, start, From(store, start)[|From(store, start)|-1].at + 1, From(store, start))
  {
    FromLast(store, start);
    assert store[..|store|] == store;
    hide From;
  }

  lemma LastOfBoth(a: seq<Message>, b: seq<Message>)
    ensures b != [] ==> (a + b)[|a + b|-1] == b[|b|-1]
    ensures |a + b| <= |a| <==> b == []
  {
  }

  /** If a pass sends anything, the next one may go on right behind that. */
  lemma NextPass(seen: seq<Message>, store: seq<Message>, start: nat, from: int, replayed: seq<Message>)
      returns (all: seq<Message>)
    requires Between(seen, start, from, replayed) && seen <= store && Chronological(store) && start <= MAX_AT
    ensures from >= 0 && replayed == From(seen, start)
    ensures all == RFIterate(store, from) && |all| <= |store|
    ensures replayed + all == From(store, start)
    ensures TakeOver(seen, store, start) == (if all == [] then 0 else all[|all|-1].at) + 1
    ensures all != [] ==> Between(store, start, all[|all|-1].at + 1, From(store, start))
  {
    hide From, RFIterate, Between;
    PassSendsTheRest(seen, store, start, from, replayed);
    all := RFIterate(store, from);
    PassIsShort(store, from);
    LastOfBoth(replayed, all);
    if all != [] {
      GoesOnBehind(store, start);
    }
  }

  /** A last pass that had something to replay takes over behind the newest message stored. */
  lemma {:induction false} TakesOver(seen: seq<Message>, store: seq<Message>, start: nat)
    requires seen <= store && Chronological(store)
    ensures From(store, start) == From(seen, start) || store != []
    ensures TakeOver(seen, store, start)
         == if From(store, start) == From(seen, start) then 1 else store[|store|-1].at + 1
  {
    FromSplit(store, |seen|, start);
    assert store[..|seen|] == seen;
    LastOfBoth(From(seen, start), From(store[|seen|..], start));
    if From(store, start) != [] {
      FromLast(store, start);
    }
    hide From, Chronological;
    if From(store[|seen|..], start) == [] {
      assert From(seen, start) + [] == From(seen, start);
    }
  }

  lemma {:induction false} PassIsShort(store: seq<Message>, from: nat)
    requires Chronological(store)
    ensures |RFIterate(store, from)| <= |store|
  {
    hide GenRFKey, KeyLess;
    if store == [] {
    } else {
      PassIsShort(store[..|store|-1], from);
    }
  }

  // ----- The same as steps -----

  /** One action after another leads from s to t. */
  ghost predicate Leads(s: State, actions: seq<Action>, t: State)
    decreases |actions|
  {
    if actions == [] then s == t
    else Enabled(s, actions[0]) && Leads(Next(s, actions[0]), actions[1..], t)
  }

  function Nexts(n: nat): seq<Action> { seq(n, i => PublishNext) }

  lemma {:induction false} LeadsOn(s: State, a: seq<Action>, m: State, b: seq<Action>, t: State)
    requires Leads(s, a, m) && Leads(m, b, t)
    ensures Leads(s, a + b, t)
    decreases |a|
  {
    hide Enabled, Next;
    if a == [] {
      assert a + b == b;
    } else {
      assert (a + b)[0] == a[0] && (a + b)[1..] == a[1..] + b;
      LeadsOn(Next(s, a[0]), a[1..], m, b, t);
    }
  }

  /** What publishing relies on: the lists match, and nobody listed from position p on who gets the message has a
      full channel. */
  ghost predicate Ready(s: State, p: nat) {
    && s.store != [] && |s.channels| == |s.starts|
    && (forall q :: 0 <= q < |s.channels| ==> s.channels[q] < |s.subs|)
    && Distinct(s.channels)
    && (forall q :: p <= q < |s.channels| && s.store[|s.store|-1].at >= s.starts[q] ==>
          |s.subs[s.channels[q]].queue| < 100)
  }

  /** Everyone listed from position p on who should has got the message, and nothing else has changed. */
  ghost predicate Delivered(s: State, t: State, p: nat)
    requires Ready(s, p)
  {
    && |t.subs| == |s.subs|
    && (forall id :: 0 <= id < |s.subs| && id !in s.channels[if p <= |s.channels| then p else 0..] ==>
          t.subs[id] == s.subs[id])
    && forall q :: p <= q < |s.channels| ==>
         t.subs[s.channels[q]].sent
           == s.subs[s.channels[q]].sent
              + if s.store[|s.store|-1].at >= s.starts[q] then [s.store[|s.store|-1]] else []
  }

  lemma OneNext(s: State)
    requires s.writer.Publishing? && s.writer.next < |s.channels| && Ready(s, s.writer.next)
    ensures Enabled(s, PublishNext)
    ensures var t := Next(s, PublishNext);
            && t == s.(writer := Publishing(s.writer.next + 1), subs := t.subs)
            && |t.subs| == |s.subs| && Ready(t, t.writer.next)
            && (forall id :: 0 <= id < |s.subs| && id != s.channels[s.writer.next] ==> t.subs[id] == s.subs[id])
            && t.subs[s.channels[s.writer.next]].sent
               == s.subs[s.channels[s.writer.next]].sent
                  + if s.store[|s.store|-1].at >= s.starts[s.writer.next] then [s.store[|s.store|-1]] else []
  {
  }

  lemma {:induction false} NextsDeliver(s: State, n: nat) returns (t: State)
    requires s.writer.Publishing? && s.writer.next + n == |s.channels| && Ready(s, s.writer.next)
    ensures Leads(s, Nexts(n), t)
    ensures t == s.(writer := Publishing(|s.channels|), subs := t.subs) && Delivered(s, t, s.writer.next)
    decreases n
  {
    hide Enabled, Next, Ready, Delivered, Leads, Nexts;
    if n == 0 {
      t := s;
      NothingDelivered(s);
    } else {
      OneNext(s);
      var m := Next(s, PublishNext);
      t := NextsDeliver(m, n - 1);
      OneMoreNext(s, n, t);
      DeliveredMore(s, m, t, s.writer.next);
    }
  }

  lemma {:induction false} NothingDelivered(s: State)
    requires s.writer == Publishing(|s.channels|) && Ready(s, s.writer.next)
    ensures Leads(s, Nexts(0), s) && Delivered(s, s, s.writer.next)
  {
  }

  lemma {:induction false} OneMoreNext(s: State, n: nat, t: State)
    requires n > 0 && Enabled(s, PublishNext) && Leads(Next(s, PublishNext), Nexts(n - 1), t)
    ensures Leads(s, Nexts(n), t)
  {
    hide Enabled, Next;
    assert Nexts(n)[0] == PublishNext && Nexts(n)[1..] == Nexts(n - 1);
  }

  lemma DeliveredMore(s: State, m: State, t: State, p: nat)
    requires p < |s.channels| && Ready(s, p) && Ready(m, p + 1) && Delivered(m, t, p + 1)
    requires m.channels == s.channels && m.starts == s.starts && m.store == s.store && |m.subs| == |s.subs|
    requires forall id :: 0 <= id < |s.subs| && id != s.channels[p] ==> m.subs[id] == s.subs[id]
    requires m.subs[s.channels[p]].sent
          == s.subs[s.channels[p]].sent
             + if s.store[|s.store|-1].at >= s.starts[p] then [s.store[|s.store|-1]] else []
    ensures Delivered(s, t, p)
  {
    assert s.channels[p..] == [s.channels[p]] + s.channels[p+1..];
    assert s.channels[p] !in s.channels[p+1..] by {
      assert forall q :: p < q < |s.channels| ==> s.channels[q] != s.channels[p];
    }
    forall q | p < q < |s.channels| ensures m.subs[s.channels[q]] == s.subs[s.channels[q]] {
    }
  }

  /** Publishing as one piece is publishing step by step: from a state of the protocol in which a message has been
      stored, the lock is free and the channels have room, the lock, one step for every list position and the unlock
      put that message on the same channels as RFPublish does, and change nothing else. */
  lemma {:induction false} PublishingIsSteps(s: State) returns (t: State)
    requires Inv(s) && s.writer.Stored? && s.lock.Free?
    requires forall q :: 0 <= q < |s.channels| && s.channels[q] < |s.subs| && s.store[|s.store|-1].at >= s.starts[q] ==>
               |s.subs[s.channels[q]].queue| < 100
    ensures Leads(s, [PublishLock] + Nexts(|s.channels|) + [PublishUnlock], t)
    ensures t == s.(writer := Idle, subs := t.subs) && |t.subs| == |s.subs|
    ensures forall q :: 0 <= q < |s.channels| ==>
              s.channels[q] < |s.subs|
              && t.subs[s.channels[q]].sent
                 == s.subs[s.channels[q]].sent
                    + if s.store[|s.store|-1].at >= s.starts[q] then [s.store[|s.store|-1]] else []
    ensures forall id :: 0 <= id < |s.subs| && id !in s.channels ==> t.subs[id] == s.subs[id]
  {
    hide Inv, Ready, Delivered, Enabled, Next;
    MayPublish(s);
    var locked := Next(s, PublishLock);
    var done := NextsDeliver(locked, |s.channels|);
    t := Unlocked(done);
    OneStep(s, PublishLock);
    OneStep(done, PublishUnlock);
    LeadsOn(s, [PublishLock], locked, Nexts(|s.channels|), done);
    LeadsOn(s, [PublishLock] + Nexts(|s.channels|), done, [PublishUnlock], t);
    WholeList(s, locked, done);
  }

  lemma {:induction false} OneStep(s: State, a: Action)
    requires Enabled(s, a)
    ensures Leads(s, [a], Next(s, a))
  {
    hide Enabled, Next;
    assert [a][1..] == [];
    assert Leads(Next(s, a), [], Next(s, a));
  }

  lemma MayPublish(s: State)
    requires Inv(s) && s.writer.Stored? && s.lock.Free?
    requires forall q :: 0 <= q < |s.channels| && s.channels[q] < |s.subs| && s.store[|s.store|-1].at >= s.starts[q] ==>
               |s.subs[s.channels[q]].queue| < 100
    ensures Enabled(s, PublishLock) && Next(s, PublishLock) == s.(lock := ByWriter, writer := Publishing(0))
    ensures Ready(s, 0) && Ready(Next(s, PublishLock), 0)
  {
    forall q | 0 <= q < |s.channels| ensures s.channels[q] < |s.subs| {
      assert ListedOk(s, q);
    }
    hide SubscriberOk, ListedOk, Chronological;
  }

  lemma Unlocked(s: State) returns (t: State)
    requires s.writer == Publishing(|s.channels|)
    ensures Enabled(s, PublishUnlock) && t == Next(s, PublishUnlock) == s.(lock := Free, writer := Idle)
  {
    t := Next(s, PublishUnlock);
  }

  lemma WholeList(s: State, m: State, t: State)
    requires Ready(s, 0) && Ready(m, 0) && Delivered(m, t, 0)
    requires m.store == s.store && m.channels == s.channels && m.starts == s.starts && m.subs == s.subs
    ensures |t.subs| == |s.subs|
    ensures forall q :: 0 <= q < |s.channels| ==>
              s.channels[q] < |s.subs|
              && t.subs[s.channels[q]].sent
                 == s.subs[s.channels[q]].sent
                    + if s.store[|s.store|-1].at >= s.starts[q] then [s.store[|s.store|-1]] else []
    ensures forall id :: 0 <= id < |s.subs| && id !in s.channels ==> t.subs[id] == s.subs[id]
  {
    assert s.channels[0..] == s.channels;
  }
}
