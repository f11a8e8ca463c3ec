/**
 The transmit queue of a radio node as a function of events.

 Packets wait in at most three slots; the first one is sent, and sent again every 50 ms until an ACK arrives or
 the eighth copy, which no longer asks for one, has gone out.  Radio readiness, received frames and the clock
 are part of the events, so they are arbitrary.
 */
module NetQueue {
  const CTL: bv8 := 0x80
  const DST: bv8 := 0x40
  const ACK: bv8 := 0x20
  const MASK: bv8 := 0x1F

  const SLOTS := 3
  const RETRY_MS := 50
  const RETRY_MAX := 8
  const CLOCK := 0x1_0000_0000

  datatype Packet = Packet(hdr: bv8, data: seq<bv8>)

  predicate WantsAck(hdr: bv8) { hdr & ACK != 0 }

  /** `waiting`, `sendCnt` and `sendTime` are the queue; the rest is history: the packets accepted so far, the
      data frames put on the air, and the times at which each packet was sent, first for the packets that have
      left the queue, then for the one at its head. */
  datatype Queue = Queue(waiting: seq<Packet>, sendCnt: nat, sendTime: nat,
                         accepted: seq<Packet>, air: seq<Packet>, times: seq<seq<nat>>, headTimes: seq<nat>)

  /** A node: its queue, the ACK it owes, the signal strengths it remembers, and the ACK frames it has sent. */
  datatype Node = Node(id: bv8, queue: Queue, queuedAck: bv8, queuedRssi: bv8,
                       lastAckRssi: bv8, lastRcvRssi: bv8, acksSent: seq<Packet>)

  function Empty(): Queue { Queue([], 0, 0, [], [], [], []) }

  /** What the radio and the clock present to one poll.  `stale` is what the first byte of the radio's buffer holds
      when a frame is empty; `ready1` answers the question asked for a queued ACK, `ready2` the one asked for a
      data packet. */
  datatype Input = Input(rcv: bool, crcOk: bool, hdr: bv8, stale: bv8, data: seq<bv8>, rssi: bv8,
                         ready1: bool, ready2: bool, now: nat)

  datatype Event =
    | Accept(p: Packet, ready: bool, now: nat)
    | Poll(input: Input)

  // ----- Sending -----

  /** The header of the n-th copy of a packet: the last retry does not ask for an ACK. */
  function CopyHdr(hdr: bv8, n: nat): bv8 { if n >= RETRY_MAX then hdr & !ACK else hdr }

  /** The first packet leaves the queue. */
  function Pop(q: Queue): Queue
    requires q.waiting != []
  {
    q.(waiting := q.waiting[1..], sendCnt := 0, times := q.times + [q.headTimes], headTimes := [])
  }

  function DoSend(q: Queue, now: nat): Queue {
    if q.waiting == [] then q
    else
      var p := q.waiting[0];
      var hdr := CopyHdr(p.hdr, q.sendCnt + 1);
      var sent := q.(air := q.air + [Packet(hdr, p.data)], headTimes := q.headTimes + [now]);
      if WantsAck(hdr) then sent.(sendCnt := q.sendCnt + 1, sendTime := now % CLOCK) else Pop(sent)
  }

  /** A packet is accepted when a slot is free, and sent at once if it is alone and the radio is ready. */
  function RawSend(q: Queue, p: Packet, ready: bool, now: nat): Queue {
    if |q.waiting| >= SLOTS then q
    else
      var more := q.(waiting := q.waiting + [p], accepted := q.accepted + [p]);
      if |more.waiting| == 1 && ready then DoSend(more, now) else more
  }

  /** The retry test on the 32-bit clock. */
  predicate RetryDue(now: nat, sendTime: nat) { now % CLOCK >= (sendTime + RETRY_MS) % CLOCK }

  function ReXmit(s: Node, i: Input): Node {
    if s.queuedAck != 0 && i.ready1 then
      s.(acksSent := s.acksSent + [Packet(s.queuedAck, [s.queuedRssi])], queuedAck := 0, queuedRssi := 0)
    else if |s.queue.waiting| > 0 && s.queue.sendCnt == 0 then
      if i.ready2 then s.(queue := DoSend(s.queue, i.now)) else s
    else if |s.queue.waiting| > 0 && s.queue.sendCnt > 0 && RetryDue(i.now, s.queue.sendTime) then
      if i.ready2 then s.(queue := DoSend(s.queue, i.now)) else s
    else s
  }

  // ----- Receiving -----

  /** The header of an ACK: to the sender, or from this node if the frame carried its own number. */
  function AckHdr(id: bv8, dest: bv8): bv8 { CTL | (if dest == id then id else DST | dest) }

  predicate IsData(i: Input) { i.rcv && i.crcOk && i.hdr & CTL == 0 }

  predicate IsAck(i: Input) { i.rcv && i.crcOk && i.hdr & CTL != 0 && i.hdr & ACK == 0 }

  /** The frame acknowledges the packet at the head of the queue. */
  predicate Acknowledges(s: Node, i: Input) {
    IsAck(i) && i.hdr & MASK == s.id && |s.queue.waiting| > 0 && s.queue.sendCnt > 0
  }

  function TakeAck(s: Node, i: Input): Node {
    if !IsAck(i) then s
    else
      var t := s.(lastRcvRssi := i.rssi);
      if !Acknowledges(s, i) then t
      else t.(lastAckRssi := if |i.data| == 1 then i.data[0] else 0, queue := Pop(s.queue))
  }

  lemma TakenAck(s: Node, i: Input)
    requires IsAck(i)
    ensures Acknowledges(s, i) <==> i.hdr & MASK == s.id && |s.queue.waiting| > 0 && s.queue.sendCnt > 0
    ensures !Acknowledges(s, i) ==> TakeAck(s, i) == s.(lastRcvRssi := i.rssi)
    ensures Acknowledges(s, i) ==>
              TakeAck(s, i) == s.(lastRcvRssi := i.rssi, lastAckRssi := if |i.data| == 1 then i.data[0] else 0,
                                  queue := Pop(s.queue))
  {
    hide Pop, IsAck;
  }

  function DoPoll(s: Node, i: Input): Node {
    if IsData(i) then
      var t := s.(lastRcvRssi := i.rssi);
      if WantsAck(i.hdr) then t.(queuedAck := AckHdr(s.id, i.hdr & MASK), queuedRssi := i.rssi) else t
    else ReXmit(TakeAck(s, i), i)
  }

  /** What poll returns: the first byte in the buffer, after a data frame. */
  function Received(i: Input): bv8 { if !IsData(i) then 0 else if i.data != [] then i.data[0] else i.stale }

  function Step(s: Node, e: Event): Node {
    match e
    case Accept(p, ready, now) => s.(queue := RawSend(s.queue, p, ready, now))
    case Poll(input) => DoPoll(s, input)
  }

  function Steps(s: Node, events: seq<Event>): Node {
    if events == [] then s else Step(Steps(s, events[..|events|-1]), events[|events|-1])
  }

  function Start(id: bv8): Node { Node(id, Empty(), 0, 0, 0, 0, []) }

  /** The ACK a node owes for a frame from another node is taken as an ACK by that node, and by no third one. */
  lemma AckReachesSender(id: bv8, dest: bv8, other: bv8)
    requires id <= MASK && dest <= MASK && other <= MASK
    ensures AckHdr(id, dest) & CTL != 0 && AckHdr(id, dest) & ACK == 0
    ensures AckHdr(id, dest) & MASK == other <==> other == dest
    ensures AckHdr(id, dest) == if dest == id then 0x80 | id else 0xC0 | dest
  {
    assert 0x80 | (0x40 | dest) == 0xC0 | dest;
  }

  // ----- The air log -----

  /** The first n copies of a packet. */
  function Copies(p: Packet, n: nat): seq<Packet> {
    if n == 0 then [] else Copies(p, n - 1) + [Packet(CopyHdr(p.hdr, n), p.data)]
  }

  /** The k-th copy carries the packet's own data and header, but an eighth copy never asks for an ACK. */
  lemma {:induction false} CopiesAre(p: Packet, n: nat)
    ensures |Copies(p, n)| == n
    ensures forall k :: 0 <= k < n ==> Copies(p, n)[k].data == p.data
    ensures forall k :: 0 <= k < n && k + 1 < RETRY_MAX ==> Copies(p, n)[k].hdr == p.hdr
    ensures forall k :: 0 <= k < n && k + 1 >= RETRY_MAX ==> !WantsAck(Copies(p, n)[k].hdr)
  {
    if n == 0 {
    } else {
      CopiesAre(p, n - 1);
      ClearedFlag(p.hdr);
    }
  }

  /** Packets in order, each repeated as often as it has send times. */
  function Log(accepted: seq<Packet>, times: seq<seq<nat>>): seq<Packet>
    requires |times| <= |accepted|
  {
    if times == [] then []
    else
      var n := |times| - 1;
      Log(accepted, times[..n]) + Copies(accepted[n], |times[n]|)
  }

  /** How often a packet may have been sent by the time it leaves the queue. */
  predicate SentEnough(p: Packet, n: nat) {
    1 <= n <= RETRY_MAX && (!WantsAck(p.hdr) ==> n == 1)
  }

  ghost predicate Inv(q: Queue) {
    && |q.waiting| <= SLOTS && q.sendCnt < RETRY_MAX
    && (q.sendCnt > 0 ==> q.waiting != [] && WantsAck(q.waiting[0].hdr))
    && |q.times| + |q.waiting| == |q.accepted| && q.waiting == q.accepted[|q.times|..]
    && |q.headTimes| == q.sendCnt
    && (forall k :: 0 <= k < |q.times| ==> SentEnough(q.accepted[k], |q.times[k]|))
    && q.air == Log(q.accepted, q.times) + (if q.sendCnt > 0 then Copies(q.waiting[0], q.sendCnt) else [])
  }

  lemma {:induction false} LogOfMore(accepted: seq<Packet>, p: Packet, times: seq<seq<nat>>)
    requires |times| <= |accepted|
    ensures Log(accepted + [p], times) == Log(accepted, times)
  {
    if times == [] {
    } else {
      LogOfMore(accepted, p, times[..|times|-1]);
    }
  }

  lemma ClearedFlag(hdr: bv8)
    ensures !WantsAck(hdr & !ACK)
  {
  }

  lemma PopKeeps(q: Queue)
    requires q.waiting != [] && |q.waiting| <= SLOTS && q.sendCnt <= RETRY_MAX
    requires |q.times| + |q.waiting| == |q.accepted| && q.waiting == q.accepted[|q.times|..]
    requires forall k :: 0 <= k < |q.times| ==> SentEnough(q.accepted[k], |q.times[k]|)
    requires SentEnough(q.waiting[0], |q.headTimes|)
    requires q.air == Log(q.accepted, q.times) + Copies(q.waiting[0], |q.headTimes|)
    ensures Inv(Pop(q))
  {
    var t := Pop(q);
    assert q.waiting[0] == q.accepted[|q.times|];
    assert t.times[..|q.times|] == q.times;
    assert t.air + [] == t.air;
    hide Copies;
  }

  lemma DoSendKeeps(q: Queue, now: nat)
    requires Inv(q)
    ensures Inv(DoSend(q, now))
  {
    if q.waiting != [] {
      var p := q.waiting[0];
      var n := q.sendCnt + 1;
      var hdr := CopyHdr(p.hdr, n);
      ClearedFlag(p.hdr);
      var sent := q.(air := q.air + [Packet(hdr, p.data)], headTimes := q.headTimes + [now]);
      assert sent.air == Log(q.accepted, q.times) + Copies(p, n) by {
        assert q.air == Log(q.accepted, q.times) + Copies(p, q.sendCnt);
      }
      if !WantsAck(hdr) {
        PopKeeps(sent);
      }
    }
  }

  lemma RawSendKeeps(q: Queue, p: Packet, ready: bool, now: nat)
    requires Inv(q)
    ensures Inv(RawSend(q, p, ready, now))
  {
    if |q.waiting| < SLOTS {
      LogOfMore(q.accepted, p, q.times);
      var more := q.(waiting := q.waiting + [p], accepted := q.accepted + [p]);
      assert Inv(more) by { hide Log, Copies; }
      DoSendKeeps(more, now);
    }
  }

  lemma TakeAckKeeps(s: Node, i: Input)
    requires Inv(s.queue)
    ensures Inv(TakeAck(s, i).queue)
  {
    if Acknowledges(s, i) {
      PopKeeps(s.queue);
      hide Inv;
    }
  }

  /** A poll leaves the queue alone, or sends from it; in any case it first takes in an ACK. */
  lemma PollCases(s: Node, i: Input)
    ensures var (q, r) := (TakeAck(s, i).queue, DoPoll(s, i).queue);
            || r == s.queue || r == q
            || (r == DoSend(q, i.now) && q.waiting != [] && (q.sendCnt > 0 ==> RetryDue(i.now, q.sendTime)))
    ensures IsData(i) ==> DoPoll(s, i).queue == s.queue
  {
    hide DoSend, RetryDue, CopyHdr;
  }

  lemma StepKeeps(s: Node, e: Event)
    requires Inv(s.queue)
    ensures Inv(Step(s, e).queue)
  {
    hide Inv, DoSend, TakeAck, DoPoll, RawSend;
    match e
    case Accept(p, ready, now) =>
      RawSendKeeps(s.queue, p, ready, now);
    case Poll(i) =>
      PollCases(s, i);
      TakeAckKeeps(s, i);
      DoSendKeeps(TakeAck(s, i).queue, i.now);
  }

  /** After any events: the slots, the retry counter and the air log are as they should be.  The data frames
      transmitted are the accepted packets in order of acceptance, each repeated consecutively; packets that
      left the queue were sent 1 to 8 times, once if no ACK was asked for. */
  lemma {:induction false} AirLog(id: bv8, events: seq<Event>)
    ensures Inv(Steps(Start(id), events).queue)
  {
    if events == [] {
    } else {
      AirLog(id, events[..|events|-1]);
      StepKeeps(Steps(Start(id), events[..|events|-1]), events[|events|-1]);
    }
  }

  // ----- The retry budget -----

  /** Transmissions still possible for the packets in the queue. */
  function Budget(q: Queue): int { RETRY_MAX * |q.waiting| - q.sendCnt }

  /** Every data transmission uses up budget, at most as much as it announces. */
  lemma TransmissionCosts(q: Queue, now: nat)
    requires Inv(q) && q.waiting != []
    ensures |DoSend(q, now).air| == |q.air| + 1
    ensures Budget(DoSend(q, now)) < Budget(q)
  {
    hide Log, Copies, CopyHdr, SentEnough;
  }

  /** So does every accepted ACK, which sends no data. */
  lemma AckCosts(s: Node, i: Input)
    requires Inv(s.queue) && Acknowledges(s, i)
    ensures Budget(TakeAck(s, i).queue) < Budget(s.queue)
    ensures TakeAck(s, i).queue.air == s.queue.air
  {
    hide Log, Copies, SentEnough, WantsAck, IsAck;
  }

  ghost predicate WithinBudget(q: Queue) { |q.air| + Budget(q) <= RETRY_MAX * |q.accepted| }

  lemma SendStaysWithinBudget(q: Queue, now: nat)
    requires Inv(q) && WithinBudget(q)
    ensures WithinBudget(DoSend(q, now))
  {
    if q.waiting != [] {
      TransmissionCosts(q, now);
    }
    hide Inv;
  }

  lemma RawSendStaysWithinBudget(q: Queue, p: Packet, ready: bool, now: nat)
    requires Inv(q) && WithinBudget(q)
    ensures WithinBudget(RawSend(q, p, ready, now))
  {
    if |q.waiting| < SLOTS {
      var more := RawSend(q, p, false, now);
      RawSendKeeps(q, p, false, now);
      hide Inv;
      assert WithinBudget(more) by { hide DoSend; }
      SendStaysWithinBudget(more, now);
      hide DoSend;
    }
  }

  lemma StepStaysWithinBudget(s: Node, e: Event)
    requires Inv(s.queue) && WithinBudget(s.queue)
    ensures WithinBudget(Step(s, e).queue)
  {
    hide Inv, DoSend, DoPoll, RawSend;
    match e
    case Accept(p, ready, now) =>
      RawSendStaysWithinBudget(s.queue, p, ready, now);
    case Poll(i) =>
      PollCases(s, i);
      TakeAckKeeps(s, i);
      if Acknowledges(s, i) {
        AckCosts(s, i);
      }
      assert WithinBudget(TakeAck(s, i).queue);
      SendStaysWithinBudget(TakeAck(s, i).queue, i.now);
  }

  /** However the radio behaves, at most 8 data frames go out per accepted packet. */
  lemma {:induction false} RetryBudget(id: bv8, events: seq<Event>)
    ensures var q := Steps(Start(id), events).queue;
            WithinBudget(q) && |q.air| <= RETRY_MAX * |q.accepted|
  {
    hide Step, Log, Copies;
    if events == [] {
    } else {
      RetryBudget(id, events[..|events|-1]);
      AirLog(id, events[..|events|-1]);
      AirLog(id, events);
      StepStaysWithinBudget(Steps(Start(id), events[..|events|-1]), events[|events|-1]);
    }
  }

  // ----- Retry times -----

  /** The clock is less than the retry interval from its wrap. */
  predicate NearWrap(t: nat) { t % CLOCK + RETRY_MS >= CLOCK }

  /** Consecutive times are at least the retry interval apart, unless the first is just before a wrap. */
  ghost predicate Spaced(times: seq<nat>) {
    forall k :: 0 < k < |times| && !NearWrap(times[k-1]) ==> times[k] - times[k-1] >= RETRY_MS
  }

  /** All packets, and the one at the head; what the node remembers of its last transmission is the clock then. */
  ghost predicate AllSpaced(q: Queue, now: nat) {
    && (forall k :: 0 <= k < |q.times| ==> Spaced(q.times[k]))
    && Spaced(q.headTimes)
    && (q.sendCnt > 0 ==>
          && q.headTimes != [] && q.headTimes[|q.headTimes|-1] <= now
          && q.headTimes[|q.headTimes|-1] % CLOCK == q.sendTime)
  }

  function Now(e: Event): nat { match e case Accept(_, _, now) => now case Poll(i) => i.now }

  lemma SameRound(sent: nat, now: nat)
    requires sent <= now < sent + RETRY_MS && !NearWrap(sent)
    ensures now % CLOCK == sent % CLOCK + (now - sent)
  {
    var r := sent % CLOCK + (now - sent);
    assert now == CLOCK * (sent / CLOCK) + r && 0 <= r < CLOCK;
  }

  lemma RetryWaits(sent: nat, now: nat)
    requires sent <= now && RetryDue(now, sent % CLOCK) && !NearWrap(sent)
    ensures now - sent >= RETRY_MS
  {
    if now < sent + RETRY_MS {
      SameRound(sent, now);
    }
  }

  lemma SendStaysSpaced(q: Queue, now: nat, last: nat)
    requires Inv(q) && AllSpaced(q, last) && last <= now
    requires q.sendCnt > 0 ==> RetryDue(now, q.sendTime)
    ensures AllSpaced(DoSend(q, now), now)
  {
    hide Log, Copies, CopyHdr, SentEnough, NearWrap, RetryDue;
    if q.sendCnt > 0 {
      var sent := q.headTimes[|q.headTimes|-1];
      if !NearWrap(sent) {
        RetryWaits(sent, now);
      }
    }
    assert Spaced(q.headTimes + [now]);
  }

  lemma RawSendStaysSpaced(q: Queue, p: Packet, ready: bool, now: nat, last: nat)
    requires Inv(q) && AllSpaced(q, last) && last <= now
    ensures AllSpaced(RawSend(q, p, ready, now), now)
  {
    if |q.waiting| < SLOTS {
      var more := RawSend(q, p, false, now);
      RawSendKeeps(q, p, false, now);
      assert more.sendCnt == q.sendCnt && more.headTimes == q.headTimes && more.times == q.times;
      assert |q.waiting| == 0 ==> more.sendCnt == 0;
      assert AllSpaced(more, last) && AllSpaced(more, now);
      hide Inv, AllSpaced, DoSend;
      if |q.waiting| == 0 {
        SendStaysSpaced(more, now, last);
      }
    }
  }

  lemma AckStaysSpaced(s: Node, i: Input, now: nat)
    requires AllSpaced(s.queue, now)
    ensures AllSpaced(TakeAck(s, i).queue, now)
  {
    hide WantsAck, IsAck, NearWrap;
  }

  lemma LaterStaysSpaced(q: Queue, last: nat, now: nat)
    requires AllSpaced(q, last) && last <= now
    ensures AllSpaced(q, now)
  {
    hide Spaced;
  }

  lemma StepStaysSpaced(s: Node, e: Event, last: nat)
    requires Inv(s.queue) && AllSpaced(s.queue, last) && last <= Now(e)
    ensures AllSpaced(Step(s, e).queue, Now(e))
  {
    hide Inv, AllSpaced, DoSend, DoPoll, TakeAck, RawSend, RetryDue;
    LaterStaysSpaced(s.queue, last, Now(e));
    match e
    case Accept(p, ready, now) =>
      RawSendStaysSpaced(s.queue, p, ready, now, last);
    case Poll(i) =>
      PollCases(s, i);
      TakeAckKeeps(s, i);
      AckStaysSpaced(s, i, i.now);
      var q := TakeAck(s, i).queue;
      if q.sendCnt == 0 || RetryDue(i.now, q.sendTime) {
        SendStaysSpaced(q, i.now, i.now);
      }
  }

  /** However long a node runs and however often its clock wraps, repeats of one packet are at least 50 ms apart,
      unless the earlier one was sent within 50 ms of a wrap. */
  lemma {:induction false} RepeatsAreSpaced(id: bv8, events: seq<Event>)
    requires forall j, k :: 0 <= j < k < |events| ==> Now(events[j]) <= Now(events[k])
    ensures AllSpaced(Steps(Start(id), events).queue, if events == [] then 0 else Now(events[|events|-1]))
    ensures var q := Steps(Start(id), events).queue;
            && (forall k, j | 0 <= k < |q.times| && 0 < j < |q.times[k]| ::
                  q.times[k][j-1] % 0x1_0000_0000 + 50 < 0x1_0000_0000 ==> q.times[k][j] - q.times[k][j-1] >= 50)
            && (forall j | 0 < j < |q.headTimes| ::
                  q.headTimes[j-1] % 0x1_0000_0000 + 50 < 0x1_0000_0000 ==> q.headTimes[j] - q.headTimes[j-1] >= 50)
  {
    hide Step;
    if events == [] {
    } else {
      var n := |events| - 1;
      RepeatsAreSpaced(id, events[..n]);
      AirLog(id, events[..n]);
      var last := if n == 0 then 0 else Now(events[n-1]);
      assert n > 0 ==> events[..n][n-1] == events[n-1];
      StepStaysSpaced(Steps(Start(id), events[..n]), events[n], last);
      SpacedInNumbers(Steps(Start(id), events).queue, Now(events[n]));
      hide AllSpaced;
    }
  }

  lemma SpacedInNumbers(q: Queue, now: nat)
    requires AllSpaced(q, now)
    ensures forall k, j | 0 <= k < |q.times| && 0 < j < |q.times[k]| ::
              q.times[k][j-1] % 0x1_0000_0000 + 50 < 0x1_0000_0000 ==> q.times[k][j] - q.times[k][j-1] >= 50
    ensures forall j | 0 < j < |q.headTimes| ::
              q.headTimes[j-1] % 0x1_0000_0000 + 50 < 0x1_0000_0000 ==> q.headTimes[j] - q.headTimes[j-1] >= 50
  {
  }

  /** The retry test waits out the interval, for every later time, exactly when the last transmission was not
      within 50 ms of a wrap. */
  lemma {:induction false} RetryTestIff(sent: nat)
    ensures (forall now: nat :: sent <= now && RetryDue(now, sent % CLOCK) ==> now - sent >= RETRY_MS) <==>
            !NearWrap(sent)
  {
    if NearWrap(sent) {
      assert RetryDue(sent, sent % CLOCK);
    } else {
      forall now: nat | sent <= now && RetryDue(now, sent % CLOCK) ensures now - sent >= RETRY_MS {
        RetryWaits(sent, now);
      }
    }
  }

  /** And at every such time two copies can go out at once: a packet is accepted and sent, and the very next poll,
      at the same millisecond, repeats it. */
  lemma {:induction false} RetryAtOnce(id: bv8, p: Packet, t: nat)
    requires WantsAck(p.hdr) && NearWrap(t)
    ensures var quiet := Input(false, false, 0, 0, [], 0, true, true, t);
            var q := Steps(Start(id), [Accept(p, true, t), Poll(quiet)]).queue;
            q.air == [p, p] && q.headTimes == [t, t]
  {
    var quiet := Input(false, false, 0, 0, [], 0, true, true, t);
    var accept, poll := Accept(p, true, t), Poll(quiet);
    TwoSteps(Start(id), accept, poll);
    hide Steps;
    assert CopyHdr(p.hdr, 1) == p.hdr == CopyHdr(p.hdr, 2);
    var s := Step(Start(id), accept);
    assert s.queue.air == [p] && s.queue.sendTime == t % CLOCK && s.queue.sendCnt == 1;
    assert RetryDue(t, t % CLOCK);
    hide RetryDue;
    assert DoPoll(s, quiet) == s.(queue := DoSend(s.queue, t));
  }

  lemma {:induction false} TwoSteps(s: Node, a: Event, b: Event)
    ensures Steps(s, [a, b]) == Step(Step(s, a), b)
  {
    hide Step;
    assert [a, b][..1] == [a] && [a][..0] == [];
    assert Steps(s, []) == s;
    assert Steps(s, [a]) == Step(s, a);
  }
}
