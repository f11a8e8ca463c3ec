/** The radio module of a node as it runs: three packet slots shifted in place, a retry counter and a timer. */
module NetNode {
  import opened NetQueue

  class Net {
    const nodeId: bv8
    const buf: array<Packet>
    var bufCnt: nat
    var sendCnt: nat
    var sendTime: nat
    var queuedAck: bv8
    var queuedRssi: bv8
    var lastAckRssi: bv8
    var lastRcvRssi: bv8
    // What went into the queue and out on the air.
    ghost var accepted: seq<Packet>
    ghost var air: seq<Packet>
    ghost var times: seq<seq<nat>>
    ghost var headTimes: seq<nat>
    ghost var acksSent: seq<Packet>

    ghost predicate Valid()
      reads this, buf
    {
      buf.Length == SLOTS && bufCnt <= SLOTS && Inv(Contents())
    }

    ghost function Contents(): Queue
      reads this, buf
      requires buf.Length == SLOTS && bufCnt <= SLOTS
    {
      Queue(buf[..bufCnt], sendCnt, sendTime, accepted, air, times, headTimes)
    }

    ghost function View(): Node
      reads this, buf
      requires buf.Length == SLOTS && bufCnt <= SLOTS
    {
      Node(nodeId, Contents(), queuedAck, queuedRssi, lastAckRssi, lastRcvRssi, acksSent)
    }

    constructor (id: bv8)
      ensures Valid() && fresh(buf) && View() == Start(id)
    {
      nodeId := id;
      buf := new Packet[SLOTS](_ => Packet(0, []));
      bufCnt, sendCnt, sendTime := 0, 0, 0;
      queuedAck, queuedRssi, lastAckRssi, lastRcvRssi := 0, 0, 0, 0;
      accepted, air, times, headTimes, acksSent := [], [], [], [], [];
    }

    /** Move the other slots down over the first one. */
    method PopHead()
      requires buf.Length == SLOTS && 0 < bufCnt <= SLOTS
      modifies this`bufCnt, this`sendCnt, this`times, this`headTimes, buf
      ensures bufCnt == old(bufCnt) - 1 && Contents() == Pop(old(Contents()))
    {
      if bufCnt > 1 {
        for k := 0 to SLOTS - 1
          modifies buf
          invariant forall j :: 0 <= j < k ==> buf[j] == old(buf[j+1])
          invariant forall j :: k <= j < SLOTS ==> buf[j] == old(buf[j])
        {
          buf[k] := buf[k+1];
        }
      }
      bufCnt := bufCnt - 1;
      sendCnt := 0;
      times, headTimes := times + [headTimes], [];
      assert buf[..bufCnt] == old(buf[..bufCnt])[1..];
    }

    /** Send the packet at the head of the queue. */
    method DoSend(now: nat)
      requires Valid()
      modifies this`bufCnt, this`sendCnt, this`sendTime, this`air, this`times, this`headTimes, buf
      ensures Valid() && Contents() == NetQueue.DoSend(old(Contents()), now)
    {
      DoSendKeeps(Contents(), now);
      if bufCnt > 0 {
        var hdr := buf[0].hdr;
        if sendCnt + 1 >= RETRY_MAX {
          hdr := hdr & !ACK;
        }
        air, headTimes := air + [Packet(hdr, buf[0].data)], headTimes + [now];
        if hdr & ACK == 0 {
          PopHead();
        } else {
          sendCnt := sendCnt + 1;
          sendTime := now % CLOCK;
        }
      }
    }

    /** Put a packet in the next free slot. */
    method Enqueue(p: Packet)
      requires Valid() && bufCnt < SLOTS
      modifies this`bufCnt, this`accepted, buf
      ensures Valid() && Contents() == NetQueue.RawSend(old(Contents()), p, false, 0)
    {
      RawSendKeeps(Contents(), p, false, 0);
      hide Inv;
      buf[bufCnt] := p;
      bufCnt := bufCnt + 1;
      accepted := accepted + [p];
      assert buf[..bufCnt] == old(buf[..bufCnt]) + [p];
    }

    /** Queue a packet whose buffer and header the caller has filled in. */
    method RawSend(p: Packet, ready: bool, now: nat)
      requires Valid()
      modifies this`bufCnt, this`sendCnt, this`sendTime, this`accepted, this`air, this`times, this`headTimes, buf
      ensures Valid() && View() == Step(old(View()), Accept(p, ready, now))
    {
      hide Inv, NetQueue.DoSend;
      if bufCnt >= SLOTS {
        return;
      }
      Enqueue(p);
      if bufCnt == 1 {
        if ready {
          DoSend(now);
        }
      }
    }

    /** Send a packet, asking for an ACK or not. */
    method Send(data: seq<bv8>, ack: bool, ready: bool, now: nat)
      requires Valid()
      modifies this`bufCnt, this`sendCnt, this`sendTime, this`accepted, this`air, this`times, this`headTimes, buf
      ensures Valid()
      ensures View() == Step(old(View()), Accept(Packet((if ack then ACK else 0) | nodeId, data), ready, now))
    {
      RawSend(Packet((if ack then ACK else 0) | nodeId, data), ready, now);
    }

    /** Broadcast a packet; no ACK is asked for. */
    method Bcast(data: seq<bv8>, ready: bool, now: nat)
      requires Valid()
      modifies this`bufCnt, this`sendCnt, this`sendTime, this`accepted, this`air, this`times, this`headTimes, buf
      ensures Valid() && View() == Step(old(View()), Accept(Packet(nodeId, data), ready, now))
    {
      RawSend(Packet(nodeId, data), ready, now);
    }

    method ReXmit(i: Input)
      requires Valid()
      modifies this, buf
      ensures Valid() && View() == NetQueue.ReXmit(old(View()), i)
    {
      hide Inv, NetQueue.DoSend;
      if queuedAck != 0 && i.ready1 {
        acksSent := acksSent + [Packet(queuedAck, [queuedRssi])];
        queuedAck := 0;
        queuedRssi := 0;
      } else if bufCnt > 0 && sendCnt == 0 {
        if i.ready2 {
          DoSend(i.now);
        }
      } else if bufCnt > 0 && sendCnt > 0 && i.now % CLOCK >= (sendTime + RETRY_MS) % CLOCK {
        if i.ready2 {
          DoSend(i.now);
        }
      }
    }

    /** A received ACK pops the head of the queue if it is for us and we are waiting for one. */
    method ReceiveAck(i: Input)
      requires Valid() && IsAck(i)
      modifies this`bufCnt, this`sendCnt, this`times, this`headTimes, this`lastAckRssi, this`lastRcvRssi, buf
      ensures Valid() && View() == TakeAck(old(View()), i)
    {
      hide Inv, Pop, IsAck, TakeAck, Acknowledges;
      TakeAckKeeps(View(), i);
      TakenAck(View(), i);
      var mine := i.hdr & MASK == nodeId && bufCnt > 0 && sendCnt > 0;
      lastRcvRssi := i.rssi;
      if mine {
        lastAckRssi := if |i.data| == 1 then i.data[0] else 0;
        assert Contents() == old(Contents());
        PopHead();
      }
    }

    /** Take in a received frame, if any, then see what needs to be sent. */
    method Poll(i: Input) returns (m: bv8)
      requires Valid()
      modifies this, buf
      ensures Valid() && View() == Step(old(View()), Event.Poll(i)) && m == Received(i)
    {
      hide Inv, NetQueue.ReXmit, Pop;
      if i.rcv && i.crcOk {
        if i.hdr & CTL == 0 {
          lastRcvRssi := i.rssi;
          if i.hdr & ACK != 0 {
            queuedAck := AckHdr(nodeId, i.hdr & MASK);
            queuedRssi := lastRcvRssi;
          }
          return if i.data != [] then i.data[0] else i.stale;
        } else if i.hdr & ACK == 0 {
          ReceiveAck(i);
        }
      }
      ReXmit(i);
      return 0;
    }

    lemma Queued()
      requires Valid()
      ensures |View().queue.waiting| == bufCnt && View().queuedAck == queuedAck
    {
    }

    /** Poll until nothing is queued, or until a packet comes in.  `drained` tells that polling stopped of its
        own accord and not for want of further inputs. */
    method Flush(inputs: seq<Input>) returns (m: bv8, used: nat, drained: bool)
      requires Valid()
      modifies this, buf
      ensures Valid() && used <= |inputs|
      ensures View() == Steps(old(View()), Polls(inputs[..used]))
      ensures forall k :: 0 <= k < used - 1 ==> Received(inputs[k]) == 0
      ensures used > 0 ==> m == Received(inputs[used-1])
      ensures used == 0 ==> m == 0
      ensures drained && m == 0 && (old(bufCnt) > 0 || old(queuedAck) != 0) ==> bufCnt == 0 && queuedAck == 0
      ensures !drained ==> used == |inputs| && m == 0 && (inputs == [] || bufCnt > 0 || queuedAck != 0)
      ensures old(bufCnt) == 0 && old(queuedAck) == 0 && inputs != [] ==> used == 1 && drained
      ensures forall k :: 0 < k < used ==>
                var s := Steps(old(View()), Polls(inputs[..k]));
                s.queue.waiting != [] || s.queuedAck != 0
    {
      hide Inv, Step, Received, Steps, Polls, Contents;
      ghost var before := View();
      StepsOfPolls(before, inputs);
      m, used, drained := 0, 0, false;
      if !(bufCnt > 0 || queuedAck != 0) {
        if inputs == [] {
          return;
        }
        m := Poll(inputs[0]);
        return m, 1, true;
      }
      while bufCnt > 0 || queuedAck != 0
        invariant Valid() && used <= |inputs| && m == 0
        invariant View() == Steps(before, Polls(inputs[..used]))
        invariant forall k :: 0 <= k < used ==> Received(inputs[k]) == 0
        invariant forall k :: 0 < k < used ==>
                    var s := Steps(before, Polls(inputs[..k]));
                    s.queue.waiting != [] || s.queuedAck != 0
        decreases |inputs| - used
      {
        if used == |inputs| {
          return;
        }
        Queued();
        m := Poll(inputs[used]);
        used := used + 1;
        if m != 0 {
          return m, used, true;
        }
      }
      drained := true;
    }
  }

  function Polls(inputs: seq<Input>): seq<Event> {
    if inputs == [] then []
    else
      var n := |inputs| - 1;
      Polls(inputs[..n]) + [Event.Poll(inputs[n])]
  }

  lemma {:induction false} StepsOfPolls(s: Node, inputs: seq<Input>)
    ensures Steps(s, Polls(inputs[..0])) == s
    ensures forall k :: 0 <= k < |inputs| ==>
              Steps(s, Polls(inputs[..k+1])) == Step(Steps(s, Polls(inputs[..k])), Event.Poll(inputs[k]))
  {
    hide Step;
    forall k | 0 <= k < |inputs|
      ensures Steps(s, Polls(inputs[..k+1])) == Step(Steps(s, Polls(inputs[..k])), Event.Poll(inputs[k]))
    {
      assert inputs[..k+1][..k] == inputs[..k];
      var events := Polls(inputs[..k+1]);
      assert events[..|events|-1] == Polls(inputs[..k]);
    }
  }
}
