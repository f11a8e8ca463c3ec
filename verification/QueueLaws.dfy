/**
 The radio queue in the numbers of the protocol: what one event changes, which frame takes a packet off the queue,
 when a repeat goes out, and which data frames are on the air after any run.
 */
module QueueLaws {
  import opened NetQueue

  // ----- One event -----

  /** A packet is accepted unless three are waiting, and goes out at once if none was and the radio is ready. */
  lemma AcceptedIff(s: Node, p: Packet, ready: bool, now: nat)
    ensures var r := Step(s, Accept(p, ready, now));
            var goes := |s.queue.waiting| == 0 && ready;
            && r == s.(queue := r.queue)
            && (|s.queue.waiting| >= 3 ==> r == s)
            && (|s.queue.waiting| < 3 ==> r.queue.accepted == s.queue.accepted + [p])
            && (|s.queue.waiting| < 3 && !goes ==>
                  r.queue == s.queue.(waiting := s.queue.waiting + [p], accepted := r.queue.accepted))
            && (goes && s.queue.sendCnt == 0 ==> r.queue.air == s.queue.air + [p])
            && (goes && s.queue.sendCnt == 0 && p.hdr & 0x20 != 0 ==>
                  r.queue.waiting == [p] && r.queue.sendCnt == 1 && r.queue.sendTime == now % 0x1_0000_0000
                  && r.queue.headTimes == s.queue.headTimes + [now] && r.queue.times == s.queue.times)
            && (goes && s.queue.sendCnt == 0 && p.hdr & 0x20 == 0 ==>
                  r.queue.waiting == [] && r.queue.sendCnt == 0 && r.queue.sendTime == s.queue.sendTime
                  && r.queue.headTimes == [] && r.queue.times == s.queue.times + [s.queue.headTimes + [now]])
  {
  }

  /** A data frame leaves the queue alone and is handed on; if its flag asks for an ACK, the node now owes one to the
      sender. */
  lemma DataFrameIsOwedAnAck(s: Node, i: Input)
    requires i.rcv && i.crcOk && i.hdr & 0x80 == 0
    ensures var r := Step(s, Poll(i));
            && r == s.(queuedAck := r.queuedAck, queuedRssi := r.queuedRssi, lastRcvRssi := i.rssi)
            && (i.hdr & 0x20 == 0 ==> r.queuedAck == s.queuedAck && r.queuedRssi == s.queuedRssi)
            && (i.hdr & 0x20 != 0 ==> r.queuedRssi == i.rssi)
            && (i.hdr & 0x20 != 0 ==>
                  r.queuedAck == if i.hdr & 0x1F == s.id then 0x80 | s.id else 0xC0 | (i.hdr & 0x1F))
            && Received(i) == if i.data == [] then i.stale else i.data[0]
  {
    assert 0x80 | (0x40 | (i.hdr & 0x1F)) == 0xC0 | (i.hdr & 0x1F);
  }

  /** Any other poll: an ACK for this node takes off a head that has been sent; then, unless an owed ACK goes out, the
      head is sent if it is fresh or was sent 50 ms ago; the eighth copy does not ask for an ACK, and a head that does
      not ask for one leaves the queue as it goes out. */
  lemma OtherPoll(s: Node, i: Input) returns (rest: seq<Packet>, sent: nat, hit: bool, goes: bool)
    requires !(i.rcv && i.crcOk && i.hdr & 0x80 == 0)
    ensures hit <==> i.rcv && i.crcOk && i.hdr & 0x20 == 0 && i.hdr & 0x1F == s.id
                     && s.queue.waiting != [] && s.queue.sendCnt > 0
    ensures rest == (if hit then s.queue.waiting[1..] else s.queue.waiting)
    ensures sent == if hit then 0 else s.queue.sendCnt
    ensures goes <==> !(s.queuedAck != 0 && i.ready1) && i.ready2 && rest != []
                      && (sent == 0 || i.now % 0x1_0000_0000 >= (s.queue.sendTime + 50) % 0x1_0000_0000)
    ensures var q := Step(s, Poll(i)).queue;
            && q.accepted == s.queue.accepted
            && (!goes ==> q.waiting == rest && q.sendCnt == sent && q.sendTime == s.queue.sendTime)
            && (!goes ==> q.air == s.queue.air)
            && (goes && sent < 7 ==> q.air == s.queue.air + [rest[0]])
            && (goes && sent >= 7 ==> q.air == s.queue.air + [Packet(rest[0].hdr & 0xDF, rest[0].data)])
            && (goes && sent < 7 && rest[0].hdr & 0x20 != 0 ==>
                  q.waiting == rest && q.sendCnt == sent + 1 && q.sendTime == i.now % 0x1_0000_0000)
            && (goes && (sent >= 7 || rest[0].hdr & 0x20 == 0) ==>
                  q.waiting == rest[1..] && q.sendCnt == 0 && q.sendTime == s.queue.sendTime)
            && var (gone, mine) := if hit then (s.queue.times + [s.queue.headTimes], [])
                                   else (s.queue.times, s.queue.headTimes);
               && (!goes ==> q.times == gone && q.headTimes == mine)
               && (goes && sent < 7 && rest[0].hdr & 0x20 != 0 ==> q.times == gone && q.headTimes == mine + [i.now])
               && (goes && (sent >= 7 || rest[0].hdr & 0x20 == 0) ==>
                     q.times == gone + [mine + [i.now]] && q.headTimes == [])
  {
    var t, _, h := PollInTwo(s, i);
    hit := h;
    hide Step, ReXmit;
    rest, sent, goes := FromQueue(s.queue, t, i, hit);
  }

  /** A poll that is not a data frame: take in an ACK, then see what to send. */
  lemma PollInTwo(s: Node, i: Input) returns (t: Node, ack: bool, hit: bool)
    requires !(i.rcv && i.crcOk && i.hdr & 0x80 == 0)
    ensures ack <==> i.rcv && i.crcOk && i.hdr & 0x20 == 0
    ensures hit <==> ack && i.hdr & 0x1F == s.id && s.queue.waiting != [] && s.queue.sendCnt > 0
    ensures t == s.(queue := if hit then Pop(s.queue) else s.queue,
                    lastRcvRssi := if ack then i.rssi else s.lastRcvRssi,
                    lastAckRssi := if !hit then s.lastAckRssi else if |i.data| == 1 then i.data[0] else 0)
    ensures Step(s, Poll(i)) == ReXmit(t, i) && Received(i) == 0
  {
    hide ReXmit, Pop, WantsAck, AckHdr, IsData, IsAck, Acknowledges;
    FrameKind(s, i);
    t, ack, hit := TakeAck(s, i), IsAck(i), Acknowledges(s, i);
  }

  lemma FrameKind(s: Node, i: Input)
    requires !(i.rcv && i.crcOk && i.hdr & 0x80 == 0)
    ensures !IsData(i) && (IsAck(i) <==> i.rcv && i.crcOk && i.hdr & 0x20 == 0)
    ensures Acknowledges(s, i) <==> IsAck(i) && i.hdr & 0x1F == s.id && s.queue.waiting != [] && s.queue.sendCnt > 0
  {
    hide WantsAck;
  }

  lemma FromQueue(q: Queue, t: Node, i: Input, hit: bool) returns (rest: seq<Packet>, sent: nat, goes: bool)
    requires q.waiting == [] ==> !hit
    requires t.queue == if hit then Pop(q) else q
    ensures if hit then rest == q.waiting[1..] && sent == 0 else rest == q.waiting && sent == q.sendCnt
    ensures goes <==> !(t.queuedAck != 0 && i.ready1) && i.ready2 && rest != []
                      && (sent == 0 || i.now % 0x1_0000_0000 >= (q.sendTime + 50) % 0x1_0000_0000)
    ensures var r := ReXmit(t, i).queue;
            && r.accepted == q.accepted
            && (!goes ==> r.waiting == rest && r.sendCnt == sent && r.sendTime == q.sendTime && r.air == q.air)
            && (goes && sent < 7 ==> r.air == q.air + [rest[0]])
            && (goes && sent >= 7 ==> r.air == q.air + [Packet(rest[0].hdr & 0xDF, rest[0].data)])
            && (goes && sent < 7 && rest[0].hdr & 0x20 != 0 ==>
                  r.waiting == rest && r.sendCnt == sent + 1 && r.sendTime == i.now % 0x1_0000_0000)
            && (goes && (sent >= 7 || rest[0].hdr & 0x20 == 0) ==>
                  r.waiting == rest[1..] && r.sendCnt == 0 && r.sendTime == q.sendTime)
            && (!goes ==> r.times == t.queue.times && r.headTimes == t.queue.headTimes)
            && (goes && sent < 7 && rest[0].hdr & 0x20 != 0 ==>
                  r.times == t.queue.times && r.headTimes == t.queue.headTimes + [i.now])
            && (goes && (sent >= 7 || rest[0].hdr & 0x20 == 0) ==>
                  r.times == t.queue.times + [t.queue.headTimes + [i.now]] && r.headTimes == [])
  {
    rest, sent := t.queue.waiting, t.queue.sendCnt;
    assert (if hit then rest == q.waiting[1..] && sent == 0 else rest == q.waiting && sent == q.sendCnt);
    assert t.queue.accepted == q.accepted && t.queue.air == q.air && t.queue.sendTime == q.sendTime;
    hide Pop;
    var _, g := NextFrame(t, i);
    goes := g;
    hide ReXmit;
    Transmission(t.queue, i.now);
    hide DoSend;
  }

  /** What such a poll does to the rest of the node: signal strengths are noted, and an owed ACK goes out once. */
  lemma RadioAfterPoll(s: Node, i: Input)
    requires !(i.rcv && i.crcOk && i.hdr & 0x80 == 0)
    ensures var r := Step(s, Poll(i));
            var ack := i.rcv && i.crcOk && i.hdr & 0x20 == 0;
            var hit := ack && i.hdr & 0x1F == s.id && s.queue.waiting != [] && s.queue.sendCnt > 0;
            var owed := s.queuedAck != 0 && i.ready1;
            && r.id == s.id && Received(i) == 0
            && r.lastRcvRssi == (if ack then i.rssi else s.lastRcvRssi)
            && r.lastAckRssi == (if !hit then s.lastAckRssi else if |i.data| == 1 then i.data[0] else 0)
            && (owed ==> r.acksSent == s.acksSent + [Packet(s.queuedAck, [s.queuedRssi])])
            && (owed ==> r.queuedAck == r.queuedRssi == 0)
            && (!owed ==> r.acksSent == s.acksSent && r.queuedAck == s.queuedAck && r.queuedRssi == s.queuedRssi)
  {
    var t, _, _ := PollInTwo(s, i);
    hide Step, Received, Pop;
    var _, _ := NextFrame(t, i);
    hide ReXmit, DoSend;
  }

  lemma NextFrame(s: Node, i: Input) returns (owed: bool, goes: bool)
    ensures owed <==> s.queuedAck != 0 && i.ready1
    ensures goes <==> !owed && i.ready2 && s.queue.waiting != []
                      && (s.queue.sendCnt == 0 || i.now % 0x1_0000_0000 >= (s.queue.sendTime + 50) % 0x1_0000_0000)
    ensures goes ==> ReXmit(s, i) == s.(queue := DoSend(s.queue, i.now))
    ensures owed ==> ReXmit(s, i) == s.(acksSent := s.acksSent + [Packet(s.queuedAck, [s.queuedRssi])],
                                        queuedAck := 0, queuedRssi := 0)
    ensures !goes && !owed ==> ReXmit(s, i) == s
  {
    hide DoSend;
    owed := s.queuedAck != 0 && i.ready1;
    goes := !owed && i.ready2 && s.queue.waiting != []
            && (s.queue.sendCnt == 0 || RetryDue(i.now, s.queue.sendTime));
  }

  lemma Transmission(q: Queue, now: nat)
    ensures q.waiting != [] ==>
              var r := DoSend(q, now);
              var stays := q.sendCnt < 7 && q.waiting[0].hdr & 0x20 != 0;
              && r.air == q.air + [Packet(if q.sendCnt < 7 then q.waiting[0].hdr else q.waiting[0].hdr & 0xDF,
                                          q.waiting[0].data)]
              && r.accepted == q.accepted
              && r.waiting == (if stays then q.waiting else q.waiting[1..])
              && r.sendCnt == (if stays then q.sendCnt + 1 else 0)
              && r.sendTime == (if stays then now % 0x1_0000_0000 else q.sendTime)
              && r.headTimes == (if stays then q.headTimes + [now] else [])
              && r.times == (if stays then q.times else q.times + [q.headTimes + [now]])
  {
    if q.waiting != [] {
      ClearedFlag(q.waiting[0].hdr);
    }
  }

  // ----- ACKs -----

  /** A packet that asks for an ACK, sent from an empty queue: the ACK another node sends back removes it, no ACK for
      a third node does. */
  lemma AckedIffForSender(s: Node, p: Packet, t: nat, i: Input, other: bv8, dest: bv8)
    requires s.queue.waiting == [] && s.queue.sendCnt == 0 && p.hdr & 0x20 != 0
    requires s.id <= 0x1F && other <= 0x1F && dest <= 0x1F && other != s.id && other != dest
    requires i.rcv && i.crcOk && i.hdr == AckHdr(other, dest)
    ensures var sent := Step(s, Accept(p, true, t));
            && sent.queue.waiting == [p] && sent.queue.air == s.queue.air + [p]
            && Step(sent, Poll(i)).queue.waiting == if dest == s.id then [] else [p]
  {
    AcceptedIff(s, p, true, t);
    var sent := Step(s, Accept(p, true, t));
    AckBits(other, dest);
    var _, _, _, _ := OtherPoll(sent, i);
    hide Step, AckHdr;
  }

  lemma AckBits(other: bv8, dest: bv8)
    requires other <= 0x1F && dest <= 0x1F && other != dest
    ensures AckHdr(other, dest) & 0x80 != 0 && AckHdr(other, dest) & 0x20 == 0 && AckHdr(other, dest) & 0x1F == dest
  {
  }

  /** While the head has not been sent, no ACK takes a packet off: one only leaves as it goes out, if it asks for no
      ACK. */
  lemma NothingSentNothingAcked(s: Node, i: Input)
    requires s.queue.sendCnt == 0
    ensures var (q, r) := (s.queue, Step(s, Poll(i)).queue);
            || r.waiting == q.waiting
            || (q.waiting != [] && q.waiting[0].hdr & 0x20 == 0
                && r.air == q.air + [q.waiting[0]] && r.waiting == q.waiting[1..])
  {
    if i.rcv && i.crcOk && i.hdr & 0x80 == 0 {
      DataFrameIsOwedAnAck(s, i);
    } else {
      var _, _, _, _ := OtherPoll(s, i);
    }
    hide Step;
  }

  /** From one node to another and back: a packet that asks for an ACK goes out, the receiver answers it at its next
      poll with a ready radio, and the answer takes it off the queue of the sender, but nothing off that of a third
      node. */
  lemma Handshake(a: Node, b: Node, c: Node, p: Packet, t: nat, i: Input, j: Input, k: Input)
    requires a.id <= 0x1F && b.id <= 0x1F && c.id <= 0x1F && a.id != b.id && c.id != a.id
    requires a.queue.waiting == [] && a.queue.sendCnt == 0 && p.hdr == 0x20 | a.id
    requires i.rcv && i.crcOk && i.hdr == p.hdr && !j.rcv && j.ready1
    requires k.rcv && k.crcOk && k.hdr == 0xC0 | a.id && !k.ready2
    ensures var heard := Step(b, Poll(i));
            && Step(heard, Poll(j)).acksSent == b.acksSent + [Packet(0xC0 | a.id, [i.rssi])]
            && Step(Step(a, Accept(p, true, t)), Poll(k)).queue.waiting == []
            && Step(c, Poll(k)).queue == c.queue
  {
    hide Step;
    assert p.hdr & 0x20 != 0 && p.hdr & 0x80 == 0 && p.hdr & 0x1F == a.id && 0xC0 | a.id != 0;
    DataFrameIsOwedAnAck(b, i);
    RadioAfterPoll(Step(b, Poll(i)), j);
    AcceptedIff(a, p, true, t);
    assert k.hdr & 0x80 != 0 && k.hdr & 0x20 == 0 && k.hdr & 0x1F == a.id;
    var _, _, _, _ := OtherPoll(Step(a, Accept(p, true, t)), k);
    UntouchedQueue(c, k);
  }

  /** A poll with an unready radio and no ACK for this node leaves the queue as it is. */
  lemma UntouchedQueue(s: Node, i: Input)
    requires !i.ready2 && !(i.rcv && i.crcOk && i.hdr & 0x80 != 0 && i.hdr & 0x20 == 0 && i.hdr & 0x1F == s.id)
    ensures Step(s, Poll(i)).queue == s.queue
  {
  }

  // ----- Repeats -----

  /** A head that was sent and not acknowledged goes out again at every poll from 50 ms on, as long as the clock has
      not wrapped since and the radio is ready. */
  lemma RepeatComes(s: Node, i: Input, sent: nat)
    requires s.queue.waiting != [] && 0 < s.queue.sendCnt < 8 && s.queue.sendTime == sent % 0x1_0000_0000
    requires !i.rcv && i.ready2 && (s.queuedAck == 0 || !i.ready1)
    requires sent + 50 <= i.now && i.now / 0x1_0000_0000 == sent / 0x1_0000_0000
    ensures var r, p := Step(s, Poll(i)).queue, s.queue.waiting[0];
            && |r.air| == |s.queue.air| + 1 && r.air[|s.queue.air|].data == p.data
            && (s.queue.sendCnt < 7 ==> r.air[|s.queue.air|].hdr == p.hdr)
  {
    var _, _, _, _ := OtherPoll(s, i);
    hide Step;
  }

  /** The polls of a node that hears nothing, with a ready radio, at the given times. */
  function QuietPolls(times: seq<nat>): (events: seq<Event>)
    ensures |events| == |times|
    ensures forall k :: 0 <= k < |times| ==> events[k] == Poll(Input(false, false, 0, 0, [], 0, true, true, times[k]))
  {
    seq(|times|, k requires 0 <= k < |times| => Poll(Input(false, false, 0, 0, [], 0, true, true, times[k])))
  }

  /** A packet nobody acknowledges: sent once when accepted and once at each of the next polls that are 50 ms apart;
      with the eighth copy, which asks for no ACK, it is given up. */
  lemma {:induction false} EightCopies(id: bv8, p: Packet, t: nat, times: seq<nat>)
    requires p.hdr & 0x20 != 0 && |times| <= 7
    requires forall k :: 0 <= k < |times| ==> times[k] / 0x1_0000_0000 == t / 0x1_0000_0000
    requires times != [] ==> times[0] >= t + 50
    requires forall k :: 0 < k < |times| ==> times[k] >= times[k-1] + 50
    ensures var r := Steps(Start(id), [Accept(p, true, t)] + QuietPolls(times));
            && r.queuedAck == 0 && |r.queue.air| == |times| + 1
            && (forall k :: 0 <= k < |times| + 1 && k < 7 ==> r.queue.air[k] == p)
            && (|times| < 7 ==> r.queue.waiting == [p] && r.queue.sendCnt == |times| + 1)
            && (|times| < 7 ==> r.queue.sendTime == (if times == [] then t else times[|times|-1]) % 0x1_0000_0000)
            && (|times| == 7 ==> r.queue.air[7] == Packet(p.hdr & 0xDF, p.data) && r.queue.waiting == [])
  {
    hide Step, Steps, QuietPolls;
    var events := [Accept(p, true, t)] + QuietPolls(times);
    LastStep(Start(id), events);
    if times == [] {
      assert events == [Accept(p, true, t)] && events[..0] == [];
      LastStep(Start(id), []);
      AcceptedIff(Start(id), p, true, t);
    } else {
      var n := |times| - 1;
      EightCopies(id, p, t, times[..n]);
      assert events[..n+1] == [Accept(p, true, t)] + QuietPolls(times[..n]);
      var s := Steps(Start(id), events[..n+1]);
      var i := Input(false, false, 0, 0, [], 0, true, true, times[n]);
      var sent := if n == 0 then t else times[n-1];
      Later(sent, times[n]);
      var _, _, _, _ := OtherPoll(s, i);
      RadioAfterPoll(s, i);
    }
  }

  lemma {:induction false} LastStep(s: Node, events: seq<Event>)
    ensures Steps(s, events) == if events == [] then s else Step(Steps(s, events[..|events|-1]), events[|events|-1])
  {
  }

  /** Away from a wrap the clock tells that 50 ms have passed. */
  lemma Later(sent: nat, now: nat)
    requires sent + 50 <= now && now / 0x1_0000_0000 == sent / 0x1_0000_0000
    ensures now % 0x1_0000_0000 >= (sent % 0x1_0000_0000 + 50) % 0x1_0000_0000
  {
  }

  // ----- The air -----

  /** After any run: the frames of the k-th accepted packet are those from `first[k]` up to `first[k+1]`, one to
      eight of them, one if it asks for no ACK; they are the packet itself, but the eighth does not ask for an ACK.
      The packet at the head may have been sent up to seven times, and the ones behind it not at all. */
  lemma {:induction false} AirInOrder(id: bv8, events: seq<Event>) returns (first: seq<nat>)
    ensures var q := Steps(Start(id), events).queue;
            var gone := |q.times|;
            && gone + |q.waiting| == |q.accepted| && |q.waiting| <= 3 && q.waiting == q.accepted[gone..]
            && |first| == gone + 1 && first[0] == 0 && first[gone] + q.sendCnt == |q.air|
            && q.sendCnt <= 7 && (q.sendCnt > 0 ==> q.waiting != [] && q.waiting[0].hdr & 0x20 != 0)
            && (forall k :: 0 <= k <= gone ==> first[k] <= |q.air|)
            && (forall k :: 0 <= k < gone ==>
                  && first[k+1] == first[k] + |q.times[k]| && 1 <= |q.times[k]| <= 8
                  && (q.accepted[k].hdr & 0x20 == 0 ==> |q.times[k]| == 1))
            && (forall k, j :: 0 <= k < gone && first[k] <= j < first[k+1] ==>
                  q.air[j] == if j < first[k] + 7 then q.accepted[k]
                              else Packet(q.accepted[k].hdr & 0xDF, q.accepted[k].data))
            && (forall j :: first[gone] <= j < |q.air| ==> q.air[j] == q.waiting[0])
            && |q.headTimes| == q.sendCnt
  {
    AirLog(id, events);
    var q := Steps(Start(id), events).queue;
    first := FramesOfQueue(q);
    hide Steps, Log, Copies;
  }

  lemma FramesOfQueue(q: Queue) returns (first: seq<nat>)
    requires Inv(q)
    ensures |first| == |q.times| + 1 && first[0] == 0 && first[|q.times|] + q.sendCnt == |q.air|
    ensures forall k :: 0 <= k < |first| ==> first[k] <= |q.air|
    ensures forall k :: 0 <= k < |q.times| ==> first[k+1] == first[k] + |q.times[k]|
    ensures forall k :: 0 <= k < |q.times| ==> CopiesAt(q.air, first[k], first[k+1], q.accepted[k])
    ensures q.sendCnt > 0 ==> CopiesAt(q.air, first[|q.times|], |q.air|, q.waiting[0])
  {
    hide CopiesAt, Copies;
    var log := Log(q.accepted, q.times);
    first := FramesOf(q.accepted, q.times);
    if q.sendCnt > 0 {
      var copies := Copies(q.waiting[0], q.sendCnt);
      CopyOf(q.waiting[0], q.sendCnt);
      LaterCopies(log, copies, q.waiting[0]);
      EarlierFrames(q, first, log, copies);
    } else {
      assert q.air == log;
    }
  }

  lemma EarlierFrames(q: Queue, first: seq<nat>, log: seq<Packet>, more: seq<Packet>)
    requires |first| == |q.times| + 1 && |q.times| <= |q.accepted| && q.air == log + more
    requires forall k :: 0 <= k < |q.times| ==> CopiesAt(log, first[k], first[k+1], q.accepted[k])
    ensures forall k :: 0 <= k < |q.times| ==> CopiesAt(q.air, first[k], first[k+1], q.accepted[k])
  {
    hide CopiesAt;
    forall k | 0 <= k < |q.times| ensures CopiesAt(q.air, first[k], first[k+1], q.accepted[k]) {
      EarlierCopies(log, more, first[k], first[k+1], q.accepted[k]);
    }
  }

  /** Frames `lo` to `hi` are copies of the packet. */
  ghost predicate CopiesAt(log: seq<Packet>, lo: nat, hi: nat, p: Packet) {
    hi <= |log| && forall j :: lo <= j < hi ==> log[j] == if j < lo + 7 then p else Packet(p.hdr & 0xDF, p.data)
  }

  lemma {:induction false} FramesOf(accepted: seq<Packet>, times: seq<seq<nat>>) returns (first: seq<nat>)
    requires |times| <= |accepted|
    requires forall k :: 0 <= k < |times| ==> |times[k]| <= 8
    ensures |first| == |times| + 1 && first[0] == 0 && first[|times|] == |Log(accepted, times)|
    ensures forall k :: 0 <= k < |first| ==> first[k] <= |Log(accepted, times)|
    ensures forall k :: 0 <= k < |times| ==> first[k+1] == first[k] + |times[k]|
    ensures forall k :: 0 <= k < |times| ==> CopiesAt(Log(accepted, times), first[k], first[k+1], accepted[k])
  {
    hide Copies, CopiesAt;
    if times == [] {
      first := [0];
    } else {
      var n := |times| - 1;
      var log, copies := Log(accepted, times[..n]), Copies(accepted[n], |times[n]|);
      assert Log(accepted, times) == log + copies;
      var before := FramesOf(accepted, times[..n]);
      hide Log;
      CopyOf(accepted[n], |times[n]|);
      first := before + [before[n] + |times[n]|];
      forall k | 0 <= k < |times| ensures CopiesAt(log + copies, first[k], first[k+1], accepted[k]) {
        if k == n {
          LaterCopies(log, copies, accepted[n]);
        } else {
          EarlierCopies(log, copies, first[k], first[k+1], accepted[k]);
        }
      }
    }
  }

  lemma EarlierCopies(log: seq<Packet>, more: seq<Packet>, lo: nat, hi: nat, p: Packet)
    requires CopiesAt(log, lo, hi, p)
    ensures CopiesAt(log + more, lo, hi, p)
    ensures hi <= |log|
  {
  }

  lemma LaterCopies(log: seq<Packet>, copies: seq<Packet>, p: Packet)
    requires CopiesAt(copies, 0, |copies|, p)
    ensures CopiesAt(log + copies, |log|, |log| + |copies|, p)
  {
  }

  /** The first n copies of a packet, n at most 8. */
  lemma {:induction false} CopyOf(p: Packet, n: nat)
    requires n <= 8
    ensures |Copies(p, n)| == n
    ensures CopiesAt(Copies(p, n), 0, n, p)
  {
    if n == 0 {
    } else {
      CopyOf(p, n - 1);
    }
  }
}
