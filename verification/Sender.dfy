/** The Channel Access sender: an object whose methods move its channels, queue, counters and send buffer. */
module Sender {
  import opened Bytes
  import opened Protocol
  import opened Layout
  import opened SenderQueue
  import opened Packing

  // ---------------------------------------------------------------- what a sender has done so far

  /** A run, the records that each of its iterations transmits, and for each the next number and the packets. */
  datatype History = History(
    run: Run, states: seq<State>, records: seq<seq<nat>>, seqNos: seq<nat>, packets: seq<seq<Packet>>)

  /** The packets of one iteration are the drain of its queue. */
  ghost predicate WireStep(hdr: seq<Byte>, ch: seq<Channel>, q: seq<nat>, s: nat, packets: seq<Packet>, s': nat) {
    && Queued(ch, q)
    && var d := Drain(hdr, ch, q, s);
       packets == d.packets && s' == d.seqNo
  }

  /** A run as SenderQueue has it, with the wire that belongs to it. */
  ghost predicate OnWire(hdr: seq<Byte>, h: History) {
    && IsRun(h.run, h.states, h.records) && |h.seqNos| == |h.packets| == |h.run.inputs| + 1
    && h.packets[0] == []
    && forall t: nat :: 0 < t <= |h.run.inputs| ==>
         WireStep(hdr, h.states[t].channels, h.records[t], h.seqNos[t - 1], h.packets[t], h.seqNos[t])
  }

  function AllPackets(packets: seq<seq<Packet>>): (all: seq<Packet>) {
    if packets == [] then [] else AllPackets(packets[..|packets| - 1]) + packets[|packets| - 1]
  }

  /** The history of a sender that has not begun. */
  function NoHistory(hash: Hash, heartbeat: nat, st: State): (h: History) {
    History(Run(hash, heartbeat, st, []), [st], [[]], [0], [[]])
  }

  /** The history after one more iteration. */
  function Longer(h: History, events: seq<CaEvent>, st: State, records: seq<nat>, seqNo: nat, packets: seq<Packet>)
    : (h': History)
  {
    History(h.run.(inputs := h.run.inputs + [events]), h.states + [st], h.records + [records], h.seqNos + [seqNo],
            h.packets + [packets])
  }

  lemma OneMoreIteration(hdr: seq<Byte>, h: History, events: seq<CaEvent>, st: State, records: seq<nat>, seqNo: nat,
                         packets: seq<Packet>)
    requires OnWire(hdr, h) && EventsFit(events, |h.run.start.channels|)
    requires h.run.heartbeat > 0
    requires var n, run := |h.run.inputs|, h.run.(inputs := h.run.inputs + [events]);
             && Iteration(run, n + 1, h.states[n], records, st)
             && WireStep(hdr, st.channels, records, h.seqNos[n], packets, seqNo)
    ensures OnWire(hdr, Longer(h, events, st, records, seqNo, packets))
    ensures AllPackets(h.packets + [packets]) == AllPackets(h.packets) + packets
  {
    hide Ready, QueueInv, WireStep, ClearUpdates;
    var h' := Longer(h, events, st, records, seqNo, packets);
    var n := |h.run.inputs|;
    forall t: nat | 0 < t <= n + 1
      ensures Iteration(h'.run, t, h'.states[t - 1], h'.records[t], h'.states[t])
      ensures WireStep(hdr, h'.states[t].channels, h'.records[t], h'.seqNos[t - 1], h'.packets[t], h'.seqNos[t])
    {
      if t <= n {
        assert Iteration(h.run, t, h.states[t - 1], h.records[t], h.states[t]);
        SameIteration(h.run, h'.run, t, h.states[t - 1], h.records[t], h.states[t]);
      }
    }
    assert (h.packets + [packets])[..|h.packets|] == h.packets;
  }

  /** The state that a history ends in. */
  lemma HistoryState(hdr: seq<Byte>, h: History)
    requires OnWire(hdr, h)
    ensures var n := |h.run.inputs|;
            && |h.states| == |h.seqNos| == n + 1
            && QueueInv(h.states[n]) && h.states[n].queue == [] && |h.states[n].channels| == |h.run.start.channels|
  {
    RunKeepsInv(h.run, h.states, h.records, |h.run.inputs|);
  }

  /** The iteration that begins in state st, number n + 1 of the run, makes a queue that cannot be drained. */
  ghost predicate Blocks(run: Run, n: nat, st: State) {
    && run.heartbeat > 0 && n < |run.inputs| && QueueInv(st) && EventsFit(run.inputs[n], |st.channels|)
    && var ready := Ready(run, st, n + 1);
       Queued(ready.channels, ready.queue) && !AllSendable(ready.channels, ready.queue)
  }

  /** An iteration depends on the events before it only. */
  lemma SameIteration(a: Run, b: Run, t: nat, st: State, sent: seq<nat>, st': State)
    requires a.hash == b.hash && a.heartbeat == b.heartbeat > 0 && 0 < t <= |a.inputs| && t <= |b.inputs|
    requires a.inputs[t - 1] == b.inputs[t - 1] && Iteration(a, t, st, sent, st')
    ensures Iteration(b, t, st, sent, st')
  {
    hide QueueInv, MarkHeartbeats, HandleAll;
  }

  lemma SameBlock(a: Run, b: Run, n: nat, st: State)
    requires a.hash == b.hash && a.heartbeat == b.heartbeat && Blocks(a, n, st)
    requires n < |b.inputs| && a.inputs[n] == b.inputs[n]
    ensures Blocks(b, n, st)
  {
    hide QueueInv, MarkHeartbeats, HandleAll, AllSendable;
  }

  // ---------------------------------------------------------------- the object

  class Sender {
    const hash: Hash
    const heartbeat: nat
    ghost const hdr: seq<Byte>
    const buffer: array<Byte>

    var channels: seq<Channel>
    var marks: seq<Mark>
    var queue: seq<nat>
    var seqNo: nat
    var iteration: nat
    /** Every datagram handed to the transport so far. */
    var sent: seq<Packet>

    ghost function St(): State
      reads this
    {
      State(channels, marks, queue)
    }

    ghost predicate Valid()
      reads this, buffer
    {
      && QueueInv(St()) && |channels| <= U32 && seqNo < U16 && heartbeat > 0
      && buffer.Length == MAX_MESSAGE_SIZE && |hdr| == HEADER_SIZE && buffer[..HEADER_SIZE] == hdr
    }

    /** Between two iterations: this is what the object has done so far. */
    ghost predicate Recorded(h: History)
      reads this
    {
      && h.run.hash == hash && h.run.heartbeat == heartbeat && |h.run.inputs| == iteration
      && OnWire(hdr, h) && h.states[iteration] == St() && h.seqNos[iteration] == seqNo && sent == AllPackets(h.packets)
    }

    constructor (config: Config, startup: nat, configHash: nat, heartbeat: nat, hash: Hash)
      requires RecordIndex(config, |config|) <= U32 && heartbeat > 0
      ensures Valid() && fresh(buffer) && this.hash == hash && this.heartbeat == heartbeat
      ensures hdr == HeaderBytes(startup, configHash)
      ensures ChannelsAgree(channels, config, |config|) && queue == [] && sent == [] && seqNo == 0 && iteration == 0
      ensures forall i :: 0 <= i < |marks| ==> marks[i] == Mark(false, 0)
      ensures Recorded(NoHistory(hash, heartbeat, St()))
    {
      this.hash, this.heartbeat := hash, heartbeat;
      var b := new Byte[MAX_MESSAGE_SIZE](_ => 0);
      var s := new Serializer(b, b.Length);
      s.PutHeader(startup, configHash);
      assert b[..HEADER_SIZE] == HeaderBytes(startup, configHash);
      var ch := CreateSenderChannels(config);
      buffer, hdr := b, HeaderBytes(startup, configHash);
      channels, marks, queue := ch, seq(|ch|, _ => Mark(false, 0)), [];
      seqNo, iteration, sent := 0, 0, [];
    }

    // -------------------------------------------------------------- marking

    method MarkUpdate(i: nat)
      requires Valid() && i < |channels|
      modifies this`marks, this`queue
      ensures Valid() && St() == SenderQueue.MarkUpdate(old(St()), i)
    {
      ParentIsRecord(channels, i);
      MarkUpdateKeepsInv(St(), i);
      var p := channels[i].parent;
      if !marks[p].pending {
        marks := marks[p := Mark(true, marks[p].updates + 1)];
        queue := queue + [p];
      }
    }

    method MarkHeartbeatUpdate(i: nat)
      requires Valid() && i < |channels|
      modifies this`marks, this`queue
      ensures Valid() && St() == MarkHeartbeat(old(St()), i)
    {
      ParentIsRecord(channels, i);
      MarkHeartbeatKeepsInv(St(), i);
      var p := channels[i].parent;
      if marks[p].updates == 0 {
        MarkUpdate(p);
      }
      marks := marks[p := marks[p].(updates := 0)];
    }

    method MarkHeartbeatUpdates()
      requires Valid()
      modifies this`marks, this`queue
      ensures Valid() && St() == MarkHeartbeats(old(St()), |channels|)
    {
      for i := 0 to |channels|
        invariant Valid() && channels == old(channels) && St() == MarkHeartbeats(old(St()), i)
      {
        MarkHeartbeatUpdate(i);
      }
    }

    method ClearUpdate()
      requires QueueInv(St()) && queue != []
      modifies this`marks, this`queue
      ensures QueueInv(St()) && St() == SenderQueue.ClearUpdate(old(St()))
    {
      ClearUpdateKeepsInv(St());
      var r := queue[0];
      assert IsRecord(channels, r);
      queue := queue[1..];
      marks := marks[r := marks[r].(pending := false)];
    }

    /** event_handler and connection_handler */
    method HandleEvent(e: CaEvent)
      requires Valid() && e.i < |channels|
      modifies this`channels, this`marks, this`queue
      ensures Valid() && St() == Handle(hash, old(St()), e)
    {
      HandleKeepsInv(hash, St(), e);
      var i := e.i;
      var c := channels[i];
      SameLayout(St(), i, ChannelAfter(hash, c, e).0);
      match e {
        case Value(_, count, data) =>
          var sizeChanged := |c.value| != |data|;
          if c.polled {
            var h := hash(data);
            if c.hash == None || sizeChanged || c.hash != Some(h) {
              channels := channels[i := c.(count := count, value := data, hash := Some(h))];
              MarkUpdate(i);
            } else {
              channels := channels[i := c.(count := count, value := data)];
            }
          } else {
            channels := channels[i := c.(count := count, value := data)];
            MarkUpdate(i);
          }
        case Down(_) =>
          channels := channels[i := c.(count := -1, value := [])];
          MarkUpdate(i);
        case Up(_, typ) =>
          channels := channels[i := c.(typ := typ)];
      }
    }

    // -------------------------------------------------------------- sending

    /** Writes the members of a group, each padded to the alignment. */
    method WriteGroup(s: Serializer, g: seq<Channel>, ghost bytes: seq<Byte>)
      requires s.buf == buffer && s.good && s.limit == buffer.Length == MAX_MESSAGE_SIZE && s.pos % ALIGNMENT == 0
      requires bytes == ItemsBytes(GroupItems(g)) && s.pos + |bytes| <= s.limit
      modifies s, buffer
      ensures s.good && s.pos == old(s.pos) + |bytes| && s.pos % ALIGNMENT == 0
      ensures buffer[..s.pos] == old(buffer[..s.pos]) + bytes
    {
      ghost var pre, done := buffer[..s.pos], [];
      ghost var start := s.pos;
      assert g[..0] == [] && ItemsBytes(GroupItems([])) == [];
      hide ItemsBytes, ItemBytes, GroupItems;
      for i := 0 to |g|
        invariant s.good && s.pos % ALIGNMENT == 0 && s.pos == start + |done| <= s.limit
        invariant buffer[..s.pos] == pre + done
        invariant done == ItemsBytes(GroupItems(g[..i]))
      {
        MemberBytes(g, i);
        ghost var member, before := ItemBytes(WireItem(g[i])), buffer[..s.pos];
        WriteMember(s, g[i], member);
        Append(pre, done, member, before, buffer[..s.pos]);
        done := done + member;
      }
      assert g[..|g|] == g;
    }

    method WriteMember(s: Serializer, c: Channel, ghost bytes: seq<Byte>)
      requires s.buf == buffer && s.good && s.limit == buffer.Length == MAX_MESSAGE_SIZE && s.pos % ALIGNMENT == 0
      requires bytes == ItemBytes(WireItem(c)) && s.pos + |bytes| <= s.limit
      modifies s, buffer
      ensures s.good && s.pos == old(s.pos) + |bytes| && s.pos % ALIGNMENT == 0
      ensures buffer[..s.pos] == old(buffer[..s.pos]) + bytes
    {
      hide LE, Pad8, Up8, ChannelDataBytes;
      PadShift(s.pos, c);
      s.PutChannelData(WireItem(c));
      s.Write(c.value);
      s.PadAlign();
    }

    /** One fragment packet: as many of the bytes of rest as there is room for. */
    method SendFragment(fragSeqNo: nat, allFragsSeqNo: nat, c: Channel, rest: seq<Byte>) returns (n: nat)
      requires Valid() && rest != []
      modifies this`sent, buffer
      ensures Valid() && n == if |rest| <= FRAGMENT_ROOM then |rest| else FRAGMENT_ROOM
      ensures var info := FragInfo(allFragsSeqNo, fragSeqNo, c.index % U32, c.count % U32, c.typ % U16, n);
              sent == old(sent) + [FragPacket(hdr, info, rest[..n])]
    {
      hide QueueInv, LE;
      var s := new Serializer(buffer, buffer.Length);
      s.Advance(HEADER_SIZE);
      var ok := s.Ensure(SUBMESSAGE_HEADER_SIZE + FRAG_MESSAGE_SIZE);
      s.PutSubheader(CA_FRAG_DATA_MESSAGE);
      var room := s.Remaining() - FRAG_MESSAGE_SIZE;
      n := if |rest| <= room then |rest| else room;
      var info := FragInfo(allFragsSeqNo, fragSeqNo, c.index % U32, c.count % U32, c.typ % U16, n);
      s.PutFragInfo(info);
      s.Write(rest[..n]);
      s.PadAlign();
      assert buffer[..s.pos] == FragPacket(hdr, info, rest[..n]);
      assert buffer[..HEADER_SIZE] == buffer[..s.pos][..HEADER_SIZE];
      sent := sent + [buffer[..s.pos]];
    }

    /** send_fragmented_update */
    method SendFragmentedUpdate(r: nat)
      requires Valid() && r < |channels|
      modifies this`seqNo, this`sent, buffer
      ensures Valid() && seqNo == Next(old(seqNo))
      ensures sent == old(sent) + Fragments(hdr, channels[r], old(seqNo), 0, channels[r].value)
    {
      hide QueueInv, FragPacket, Fragments;
      var c := channels[r];
      var rest := c.value;
      var allFragsSeqNo := seqNo;
      seqNo := Next(seqNo);
      var fragSeqNo := 0;
      ghost var k, packets := 0, Fragments(hdr, c, allFragsSeqNo, 0, c.value);
      while rest != []
        invariant Valid() && fragSeqNo == k % U16 && seqNo == Next(old(seqNo))
        invariant sent + Fragments(hdr, c, allFragsSeqNo, k, rest) == old(sent) + packets
        decreases |rest|
      {
        ghost var before := sent;
        var n := SendFragment(fragSeqNo, allFragsSeqNo, c, rest);
        fragSeqNo := (fragSeqNo + 1) % U16;
        FragmentsStep(hdr, c, allFragsSeqNo, k, rest, n, before);
        rest := rest[n..];
        k := k + 1;
      }
      FragmentsEnd(hdr, c, allFragsSeqNo, k);
    }

    /** send_fragmented_updates */
    method SendFragmentedUpdates()
      requires Valid()
      modifies this`marks, this`queue, this`seqNo, this`sent, buffer
      ensures Valid() && seqNo == Later(old(seqNo), FragRun(channels, old(queue)))
      ensures St() == ClearUpdates(old(St()), FragRun(channels, old(queue)))
      ensures sent == old(sent)
                      + FragmentSets(hdr, channels, old(queue)[..FragRun(channels, old(queue))], old(seqNo))
    {
      hide FragmentSets, Fragments, ClearUpdates, FragRun, QueueInv, Next, Later;
      LaterSteps(seqNo, 0);
      ghost var st, n := St(), 0;
      FragmentStart(hdr, st, seqNo);
      while queue != [] && |channels[queue[0]].value| > MAX_DATA_SIZE
        invariant Valid() && seqNo == Later(old(seqNo), n)
        invariant n <= |st.queue| && St() == ClearUpdates(st, n)
        invariant FragRun(channels, st.queue) == n + FragRun(channels, queue)
        invariant sent == old(sent) + FragmentSets(hdr, channels, st.queue[..n], old(seqNo))
        decreases |queue|
      {
        FragmentStep(channels, st.queue, n);
        FragmentSetsStep(hdr, channels, st.queue, n, old(seqNo));
        ClearStep(st, n);
        LaterSteps(old(seqNo), n);
        SendFragmentedUpdate(queue[0]);
        ClearUpdate();
        n := n + 1;
      }
      FragmentEnd(channels, queue);
    }

    /** Takes the first group of the queue into the packet, if it is not too large and there is room for it. */
    method TakeGroup(s: Serializer, ghost g: seq<Channel>) returns (tooLarge: bool, taken: bool, count: nat)
      requires QueueInv(St()) && queue != [] && queue[0] < |channels| && g == Group(channels, queue[0])
      requires s.buf == buffer && s.good && s.pos % ALIGNMENT == 0
      requires s.pos <= s.limit == buffer.Length == MAX_MESSAGE_SIZE
      modifies this`marks, this`queue, s, buffer
      ensures tooLarge == (ValueSize(g) > MAX_DATA_SIZE)
      ensures taken == (!tooLarge && AlignedSize(g) <= s.limit - old(s.pos))
      ensures taken ==>
                && QueueInv(St()) && St() == SenderQueue.ClearUpdate(old(St()))
                && s.good && s.pos == old(s.pos) + AlignedSize(g) && s.pos % ALIGNMENT == 0 && s.pos <= s.limit
                && buffer[..s.pos] == old(buffer[..s.pos]) + ItemsBytes(GroupItems(g))
                && count == |g|
      ensures !taken ==> St() == old(St()) && s.pos == old(s.pos) && buffer[..] == old(buffer[..])
    {
      var r := queue[0];
      var end := EndOfGroup(channels, r);
      var size, aligned := GroupSizes(channels, r, end);
      tooLarge, taken, count := size > MAX_DATA_SIZE, false, 0;
      if !tooLarge {
        taken := s.Ensure(aligned);
        if taken {
          ReservedIsWritten(g);
          WriteGroup(s, channels[r..end + 1], ItemsBytes(GroupItems(g)));
          ClearUpdate();
          count := end - r + 1;
        }
      }
    }

    /** The inner loop of send_updates: groups go into the packet while they fit. */
    method FillPacket(s: Serializer) returns (updateCount: nat, processFragmented: bool)
      requires QueueInv(St()) && s.buf == buffer && s.good && s.pos == MAX_MESSAGE_SIZE - DATA_ROOM
      requires s.limit == buffer.Length == MAX_MESSAGE_SIZE
      modifies this`marks, this`queue, s, buffer
      ensures s.pos <= s.limit
      ensures QueueInv(St()) && St() == ClearUpdates(old(St()), Fill(channels, old(queue), DATA_ROOM))
      ensures processFragmented == StopsForFragments(channels, queue)
      ensures var items := QueueItems(channels, old(queue)[..Fill(channels, old(queue), DATA_ROOM)]);
              updateCount == |items| && buffer[..s.pos] == old(buffer[..s.pos]) + ItemsBytes(items)
    {
      hide QueueItems, ItemsBytes, Fill, ClearUpdates, QueueInv, GroupItems, ValueSize, AlignedSize;
      ghost var st, pre, n, items := St(), buffer[..s.pos], 0, [];
      updateCount, processFragmented := 0, false;
      FillStart(st);
      while queue != []
        invariant n <= |st.queue| && St() == ClearUpdates(st, n)
        invariant s.good && s.pos % ALIGNMENT == 0 && s.pos <= s.limit
        invariant items == QueueItems(channels, st.queue[..n]) && updateCount == |items|
        invariant buffer[..s.pos] == pre + ItemsBytes(items)
        invariant Fill(channels, st.queue, DATA_ROOM) == n + Fill(channels, queue, s.limit - s.pos)
        invariant !processFragmented
        decreases |queue|
      {
        FillStep(channels, st.queue, n, s.limit - s.pos);
        ItemsStep(channels, st.queue, n);
        ClearStep(st, n);
        ghost var g := Group(channels, queue[0]);
        var tooLarge, taken, count := TakeGroup(s, g);
        if tooLarge {
          processFragmented := true;
          break;
        }
        if !taken {
          break;
        }
        updateCount := updateCount + count;
        items := items + GroupItems(g);
        n := n + 1;
      }
      FillEnd(channels, queue, s.limit - s.pos);
    }

    /** Starts a data packet behind the preset header, with a count still to be filled in. */
    method BeginData() returns (s: Serializer)
      requires Valid()
      modifies buffer
      ensures Valid() && fresh(s) && s.buf == buffer && s.limit == buffer.Length && s.good
      ensures s.pos == MAX_MESSAGE_SIZE - DATA_ROOM && buffer[..s.pos] == DataPrefix(hdr, seqNo, 0)
    {
      hide QueueInv, LE;
      s := new Serializer(buffer, buffer.Length);
      s.Advance(HEADER_SIZE);
      var ok := s.Ensure(SUBMESSAGE_HEADER_SIZE + DATA_MESSAGE_SIZE);
      s.PutSubheader(CA_DATA_MESSAGE);
      s.PutDataMessage(seqNo, 0);
      assert buffer[..HEADER_SIZE] == buffer[..s.pos][..HEADER_SIZE];
    }

    /** Fills in the count and sends the packet. */
    method FinishData(s: Serializer, updateCount: nat, ghost seq0: nat, ghost items: seq<Item>)
      requires |hdr| == HEADER_SIZE && buffer.Length == MAX_MESSAGE_SIZE && updateCount == |items|
      requires s.buf == buffer && s.pos <= s.limit == buffer.Length
      requires buffer[..s.pos] == DataPrefix(hdr, seq0, 0) + ItemsBytes(items)
      modifies this`sent, s, buffer
      ensures buffer[..HEADER_SIZE] == hdr && sent == old(sent) + [DataPacket(hdr, seq0, items)]
    {
      hide LE, ItemsBytes;
      var bytesToSend := s.pos;
      ghost var body := buffer[..bytesToSend];
      s.SetPosition(MAX_MESSAGE_SIZE - DATA_ROOM - 2);
      s.WriteUint(updateCount, 2);
      ghost var done := buffer[..bytesToSend];
      assert done[..ITEMS_START] == buffer[..ITEMS_START] && body[..COUNT_START] == old(buffer[..])[..COUNT_START];
      assert done[ITEMS_START..] == body[ITEMS_START..];
      PatchCount(hdr, seq0, items, body, done);
      assert buffer[..HEADER_SIZE] == buffer[..bytesToSend][..HEADER_SIZE];
      sent := sent + [buffer[..bytesToSend]];
    }

    /** The data packet of a pass, with as many groups as fit; it is sent even if that is none. */
    method SendData() returns (processFragmented: bool)
      requires Valid() && Queued(channels, queue)
      modifies this`marks, this`queue, this`seqNo, this`sent, buffer
      ensures Valid() && seqNo == Next(old(seqNo))
      ensures var n := Fill(channels, old(queue), DATA_ROOM);
              && St() == ClearUpdates(old(St()), n) && Queued(channels, old(queue)[..n]) && Queued(channels, queue)
              && sent == old(sent) + [DataPacket(hdr, old(seqNo), QueueItems(channels, old(queue)[..n]))]
      ensures processFragmented == StopsForFragments(channels, queue)
    {
      hide QueueItems, ItemsBytes, Fill, ClearUpdates, QueueInv, StopsForFragments, DataPacket, DataPrefix;
      ghost var q, n := queue, Fill(channels, queue, DATA_ROOM);
      var s := BeginData();
      ghost var seq0 := seqNo;
      seqNo := Next(seqNo);
      var updateCount;
      updateCount, processFragmented := FillPacket(s);
      FinishData(s, updateCount, seq0, QueueItems(channels, q[..n]));
    }

    /** One pass of the loop of send_updates. */
    method SendPass()
      requires Valid() && queue != []
      modifies this`marks, this`queue, this`seqNo, this`sent, buffer
      ensures Valid()
      ensures St() == ClearUpdates(old(St()), PassCount(channels, old(queue)))
      ensures sent == old(sent) + PassPackets(hdr, channels, old(queue), old(seqNo))
      ensures seqNo == PassSeqNo(channels, old(queue), old(seqNo))
    {
      hide QueueItems, Fill, ClearUpdates, QueueInv, FragRun, StopsForFragments, DataPacket,
           FragmentSets, PassPackets, PassCount, PassSeqNo, Next, Later, Queued;
      ghost var st, seq0 := St(), seqNo;
      FillStart(st);
      FillSplit(channels, queue);
      ghost var n := Fill(channels, queue, DATA_ROOM);
      ghost var m := if StopsForFragments(channels, queue[n..]) then FragRun(channels, queue[n..]) else 0;
      PassStep(hdr, st, n, m, seq0);
      ghost var sets := FragmentSets(hdr, channels, queue[n..][..m], Next(seqNo));
      var processFragmented := SendData();
      ghost var mid := sent;
      if processFragmented {
        SendFragmentedUpdates();
      }
      assert sent == mid + sets;
    }

    /**
     send_updates. The loop of the source runs until the queue is empty; here it also ends after a pass that has taken
     nothing off the queue, and reports that: the source then repeats this pass for ever (Packing.BlockedForever).
     */
    method SendUpdates() returns (drained: bool)
      requires Valid()
      modifies this`marks, this`queue, this`seqNo, this`sent, buffer
      ensures Valid() && drained == (queue == [])
      ensures drained <==> AllSendable(channels, old(queue))
      ensures |queue| <= |old(queue)| && St() == ClearUpdates(old(St()), |old(queue)| - |queue|)
      ensures var d := Drain(hdr, channels, old(queue), old(seqNo));
              sent == old(sent) + d.packets && queue == d.rest && seqNo == d.seqNo
    {
      hide PassPackets, PassCount, ClearUpdates, PassSeqNo, QueueInv, Drain, AllSendable;
      ghost var st := St();
      ghost var n: nat := 0;
      FillStart(st);
      ghost var all := Drain(hdr, channels, queue, seqNo);
      var stuck := false;
      while queue != [] && !stuck
        invariant Valid() && n <= |st.queue| && St() == ClearUpdates(st, n)
        invariant stuck ==>
                    sent == old(sent) + all.packets && queue == all.rest && seqNo == all.seqNo && queue != []
        invariant !stuck ==>
                    var d := Drain(hdr, channels, queue, seqNo);
                    sent + d.packets == old(sent) + all.packets && d.rest == all.rest && d.seqNo == all.seqNo
        decreases |queue|, !stuck
      {
        var size := |queue|;
        FillStart(St());
        ghost var k: nat := PassCount(channels, queue);
        DrainStep(hdr, channels, queue, seqNo, sent);
        SendPass();
        ClearTwice(st, n, k);
        stuck := |queue| == size;
        n := n + k;
      }
      FillStart(St());
      DrainEnd(hdr, channels, st.queue, old(seqNo), queue, seqNo);
      drained := !stuck;
    }

    // -------------------------------------------------------------- the loop

    /**
     One iteration of run, with the Channel Access events that its wait delivers. When it drains the queue, it is an
     iteration of the runs that SenderQueue speaks of, and what it puts on the wire is the drain of all that is ready.
     */
    method Iterate(events: seq<CaEvent>, ghost run: Run) returns (drained: bool)
      requires Valid() && queue == [] && EventsFit(events, |channels|)
      requires run.hash == hash && run.heartbeat == heartbeat
      requires iteration < |run.inputs| && run.inputs[iteration] == events
      modifies this, buffer
      ensures Valid() && iteration == old(iteration) + 1 && drained == (queue == [])
      ensures var ready := Ready(run, old(St()), iteration);
              && channels == ready.channels && Queued(channels, ready.queue)
              && (drained <==> AllSendable(channels, ready.queue))
              && (drained ==> Iteration(run, iteration, old(St()), ready.queue, St()))
      ensures var d := Drain(hdr, channels, Ready(run, old(St()), iteration).queue, old(seqNo));
              sent == old(sent) + d.packets && queue == d.rest && seqNo == d.seqNo
    {
      hide QueueInv, Drain, AllSendable, ClearUpdates, MarkHeartbeats, HandleAll, Handle;
      ghost var st := St();
      EventsStart(hash, st, events);
      for i := 0 to |events|
        invariant Valid() && St() == HandleAll(hash, st, events[..i])
        invariant |channels| == |st.channels|
        invariant unchanged(`iteration) && unchanged(`seqNo) && unchanged(`sent)
      {
        EventsStep(hash, st, events, i);
        HandleEvent(events[i]);
      }
      assert events[..|events|] == events;
      iteration := iteration + 1;
      if iteration % heartbeat == 0 {
        MarkHeartbeatUpdates();
      }
      FillStart(St());
      drained := SendUpdates();
    }

    /**
     run, until the given number of iterations has been made since the sender was created, but at least once; inputs
     are the events that its waits deliver. The history grows by these iterations. If the queue cannot be drained, the
     source stays in that iteration for ever; here the loop ends then.
     */
    method RunUntil(iterations: nat, inputs: seq<seq<CaEvent>>, ghost h: History)
      returns (drained: bool, ghost h': History)
      requires Valid() && Recorded(h)
      requires |inputs| == if iteration < iterations then iterations - iteration else 1
      requires forall t :: 0 <= t < |inputs| ==> EventsFit(inputs[t], |channels|)
      modifies this, buffer
      ensures Valid() && OnWire(hdr, h') && AllPackets(h'.packets) <= sent
      ensures drained ==> Recorded(h') && h'.run == h.run.(inputs := h.run.inputs + inputs)
      ensures !drained ==>
                var run := h.run.(inputs := h.run.inputs + inputs);
                && |h'.run.inputs| < |run.inputs| && h'.run == run.(inputs := run.inputs[..|h'.run.inputs|])
                && Blocks(run, |h'.run.inputs|, h'.states[|h'.run.inputs|])
    {
      hide OnWire, Blocks, AllPackets, QueueInv;
      h', drained := h, true;
      ghost var run := h.run.(inputs := h.run.inputs + inputs);
      var k := 0;
      HistoryState(hdr, h);
      while true
        invariant Valid() && Recorded(h') && k < |inputs| && iteration == old(iteration) + k
        invariant h'.run == run.(inputs := run.inputs[..iteration])
        invariant |channels| == |h.run.start.channels|
        decreases |inputs| - k
      {
        HistoryState(hdr, h');
        ghost var n := iteration;
        assert run.inputs[n] == inputs[k];
        assert run.inputs[..n] + [run.inputs[n]] == run.inputs[..n + 1];
        drained, h' := IterateRecorded(inputs[k], h');
        k := k + 1;
        if !drained {
          SameBlock(run.(inputs := run.inputs[..n + 1]), run, n, h'.states[n]);
          return;
        }
        HistoryState(hdr, h');
        if iteration >= iterations {
          assert run.inputs[..iteration] == run.inputs;
          return;
        }
      }
    }

    /** One iteration of run, and the history that it makes longer. */
    method IterateRecorded(events: seq<CaEvent>, ghost h: History) returns (drained: bool, ghost h': History)
      requires Valid() && Recorded(h) && EventsFit(events, |channels|)
      modifies this, buffer
      ensures Valid() && OnWire(hdr, h') && AllPackets(h'.packets) <= sent && |channels| == old(|channels|)
      ensures iteration == old(iteration) + 1
      ensures var run := h.run.(inputs := h.run.inputs + [events]);
              if drained then Recorded(h') && h'.run == run
              else h' == h && Blocks(run, old(iteration), h.states[old(iteration)])
    {
      hide OnWire, Drain, AllSendable, Iteration, QueueInv, Ready, AllPackets;
      HistoryState(hdr, h);
      ghost var run, st, n, s := h.run.(inputs := h.run.inputs + [events]), St(), iteration, seqNo;
      drained := Iterate(events, run);
      ghost var ready := Ready(run, st, n + 1);
      h' := h;
      if drained {
        ghost var packets := Drain(hdr, channels, ready.queue, s).packets;
        OneMoreIteration(hdr, h, events, St(), ready.queue, seqNo, packets);
        h' := Longer(h, events, St(), ready.queue, seqNo, packets);
      }
    }
  }

  // ---------------------------------------------------------------- steps of the loops above

  lemma PadShift(pos: nat, c: Channel)
    requires pos % ALIGNMENT == 0
    ensures Pad8(pos + CHANNEL_DATA_SIZE + |c.value|) == Pad8(|c.value|)
    ensures Up8(pos + CHANNEL_DATA_SIZE + |c.value|) == pos + |ItemBytes(WireItem(c))|
    ensures (pos + |ItemBytes(WireItem(c))|) % ALIGNMENT == 0
  {
    hide ItemBytes, Pad8;
    ModShift(pos, CHANNEL_DATA_SIZE);
    Pad8Shift(pos + CHANNEL_DATA_SIZE, |c.value|);
    Pad8Shift(CHANNEL_DATA_SIZE, |c.value|);
    ModShift(pos, |ItemBytes(WireItem(c))|);
  }

  lemma Append(pre: seq<Byte>, done: seq<Byte>, more: seq<Byte>, before: seq<Byte>, after: seq<Byte>)
    requires before == pre + done && after == before + more
    ensures after == pre + (done + more) && |after| == |pre| + |done + more|
  {
  }

  lemma MemberBytes(g: seq<Channel>, i: nat)
    requires i < |g|
    ensures ItemsBytes(GroupItems(g[..i + 1])) == ItemsBytes(GroupItems(g[..i])) + ItemBytes(WireItem(g[i]))
    ensures |ItemsBytes(GroupItems(g[..i + 1]))| <= |ItemsBytes(GroupItems(g))|
  {
    assert GroupItems(g[..i + 1]) == GroupItems(g[..i]) + [WireItem(g[i])];
    ItemsBytesOneMore(GroupItems(g[..i]), WireItem(g[i]));
    assert GroupItems(g) == GroupItems(g[..i + 1]) + GroupItems(g[i + 1..]);
    ItemsBytesConcat(GroupItems(g[..i + 1]), GroupItems(g[i + 1..]));
  }

  lemma FragmentsStep(hdr: seq<Byte>, c: Channel, seqNo: nat, k: nat, rest: seq<Byte>, n: nat, sent: seq<Packet>)
    requires rest != [] && n == if |rest| <= FRAGMENT_ROOM then |rest| else FRAGMENT_ROOM
    ensures var info := FragInfo(seqNo, k % U16, c.index % U32, c.count % U32, c.typ % U16, n);
            sent + Fragments(hdr, c, seqNo, k, rest)
            == sent + [FragPacket(hdr, info, rest[..n])] + Fragments(hdr, c, seqNo, k + 1, rest[n..])
  {
  }

  lemma FragmentsEnd(hdr: seq<Byte>, c: Channel, seqNo: nat, k: nat)
    ensures Fragments(hdr, c, seqNo, k, []) == []
  {
  }

  lemma FragmentStart(hdr: seq<Byte>, st: State, seqNo: nat)
    requires QueueInv(st)
    ensures ClearUpdates(st, 0) == st && Queued(st.channels, st.queue)
    ensures FragmentSets(hdr, st.channels, [], seqNo) == []
    ensures forall k :: 0 <= k < |st.queue| ==> st.queue[k] < |st.channels|
  {
    forall k | 0 <= k < |st.queue| ensures st.queue[k] < |st.channels| {
      assert st.queue[k] in st.queue;
    }
  }

  lemma FragmentStep(ch: seq<Channel>, q: seq<nat>, n: nat)
    requires Queued(ch, q) && n < |q| && q[n] < |ch| && Oversized(ch[q[n]])
    ensures Queued(ch, q[n..]) && Queued(ch, q[n + 1..]) && FragRun(ch, q[n..]) == 1 + FragRun(ch, q[n + 1..])
  {
    assert q[n..][1..] == q[n + 1..];
  }

  lemma FragmentEnd(ch: seq<Channel>, q: seq<nat>)
    requires Queued(ch, q) && (q == [] || (q[0] < |ch| && !Oversized(ch[q[0]])))
    ensures FragRun(ch, q) == 0
  {
  }

  lemma {:induction false} FragmentSetsStep(hdr: seq<Byte>, ch: seq<Channel>, q: seq<nat>, n: nat, seqNo: nat)
    requires Queued(ch, q) && n < |q| && seqNo < U16
    ensures IsRecord(ch, q[n]) && Queued(ch, q[..n]) && Queued(ch, q[..n + 1])
    ensures FragmentSets(hdr, ch, q[..n + 1], seqNo)
            == FragmentSets(hdr, ch, q[..n], seqNo) + Fragments(hdr, ch[q[n]], Later(seqNo, n), 0, ch[q[n]].value)
  {
    hide Fragments, Next, Later;
    LaterSteps(seqNo, if n > 0 then n - 1 else 0);
    if n > 0 {
      FragmentSetsStep(hdr, ch, q[1..], n - 1, Next(seqNo));
      assert q[..n + 1][1..] == q[1..][..n] && q[..n][1..] == q[1..][..n - 1];
    } else {
      assert q[..1][1..] == [];
    }
  }

  lemma FillStart(st: State)
    requires QueueInv(st)
    ensures Queued(st.channels, st.queue) && ClearUpdates(st, 0) == st
    ensures QueueItems(st.channels, st.queue[..0]) == [] && ItemsBytes([]) == []
  {
  }

  /** Taking group n of the queue into a data packet that has room bytes left. */
  lemma FillStep(ch: seq<Channel>, q: seq<nat>, n: nat, room: nat)
    requires Queued(ch, q) && n < |q|
    ensures IsRecord(ch, q[n]) && Queued(ch, q[n..]) && Queued(ch, q[n + 1..])
    ensures var g := Group(ch, q[n]);
            Fill(ch, q[n..], room) ==
            if ValueSize(g) > MAX_DATA_SIZE || AlignedSize(g) > room then 0
            else 1 + Fill(ch, q[n + 1..], room - AlignedSize(g))
  {
    assert q[n..][1..] == q[n + 1..];
  }

  lemma ItemsStep(ch: seq<Channel>, q: seq<nat>, n: nat)
    requires Queued(ch, q) && n < |q|
    ensures Queued(ch, q[..n]) && Queued(ch, q[..n + 1]) && IsRecord(ch, q[n])
    ensures var g := Group(ch, q[n]);
            && QueueItems(ch, q[..n + 1]) == QueueItems(ch, q[..n]) + GroupItems(g)
            && ItemsBytes(QueueItems(ch, q[..n + 1])) == ItemsBytes(QueueItems(ch, q[..n])) + ItemsBytes(GroupItems(g))
  {
    hide ItemsBytes, GroupItems;
    assert q[..n + 1] == q[..n] + [q[n]];
    QueueItemsAppend(ch, q[..n], q[n]);
    ItemsBytesConcat(QueueItems(ch, q[..n]), GroupItems(Group(ch, q[n])));
  }

  lemma ClearStep(st: State, n: nat)
    requires QueueInv(st) && n < |st.queue|
    ensures QueueInv(ClearUpdates(st, n)) && SenderQueue.ClearUpdate(ClearUpdates(st, n)) == ClearUpdates(st, n + 1)
  {
  }

  lemma FillSplit(ch: seq<Channel>, q: seq<nat>)
    requires Queued(ch, q)
    ensures Queued(ch, q[..Fill(ch, q, DATA_ROOM)]) && Queued(ch, q[Fill(ch, q, DATA_ROOM)..])
  {
  }

  lemma FillEnd(ch: seq<Channel>, q: seq<nat>, room: nat)
    requires Queued(ch, q)
    ensures q == [] ==> Fill(ch, q, room) == 0
  {
  }

  /** What a pass amounts to, when it filled n groups into the data packet and sent m records as fragments. */
  lemma PassStep(hdr: seq<Byte>, st: State, n: nat, m: nat, seqNo: nat)
    requires QueueInv(st) && Queued(st.channels, st.queue) && n == Fill(st.channels, st.queue, DATA_ROOM)
    requires m == if StopsForFragments(st.channels, st.queue[n..]) then FragRun(st.channels, st.queue[n..]) else 0
    ensures n + m == PassCount(st.channels, st.queue)
    ensures ClearUpdates(ClearUpdates(st, n), m) == ClearUpdates(st, n + m)
    ensures ClearUpdates(ClearUpdates(st, n), 0) == ClearUpdates(st, n)
    ensures PassSeqNo(st.channels, st.queue, seqNo) == Later(Next(seqNo), m)
    ensures Later(Next(seqNo), 0) == Next(seqNo) < U16
    ensures m <= |st.queue[n..]| && Queued(st.channels, st.queue[..n]) && Queued(st.channels, st.queue[n..][..m])
    ensures PassPackets(hdr, st.channels, st.queue, seqNo)
            == [DataPacket(hdr, seqNo, QueueItems(st.channels, st.queue[..n]))]
               + FragmentSets(hdr, st.channels, st.queue[n..][..m], Next(seqNo))
    ensures m == 0 ==> FragmentSets(hdr, st.channels, st.queue[n..][..m], Next(seqNo)) == []
  {
    hide Fill, FragRun, StopsForFragments, DataPacket, QueueItems, FragmentSets, ClearUpdates, QueueInv, Next, Later;
    ClearTwice(st, n, m);
    ClearTwice(st, n, 0);
    assert st.queue[n..n + m] == st.queue[n..][..m];
    LaterSteps(seqNo, m);
    LaterSteps(Next(seqNo), 0);
    NoFragmentSets(hdr, st.channels, Next(seqNo));
  }

  lemma NoFragmentSets(hdr: seq<Byte>, ch: seq<Channel>, seqNo: nat)
    requires WellLaid(ch)
    ensures FragmentSets(hdr, ch, [], seqNo) == []
  {
  }

  lemma EventsStart(hash: Hash, st: State, es: seq<CaEvent>)
    requires QueueInv(st)
    ensures HandleAll(hash, st, es[..0]) == st
  {
  }

  lemma EventsStep(hash: Hash, st: State, es: seq<CaEvent>, i: nat)
    requires WellFormed(st) && EventsFit(es, |st.channels|) && i < |es|
    ensures HandleAll(hash, st, es[..i + 1]) == Handle(hash, HandleAll(hash, st, es[..i]), es[i])
  {
    hide Handle;
    assert es[..i + 1][..i] == es[..i];
  }

  lemma DrainStep(hdr: seq<Byte>, ch: seq<Channel>, q: seq<nat>, seqNo: nat, sent: seq<Packet>)
    requires Queued(ch, q) && q != []
    ensures Queued(ch, q[PassCount(ch, q)..])
    ensures var n, s := PassCount(ch, q), PassSeqNo(ch, q, seqNo);
            var now, d := PassPackets(hdr, ch, q, seqNo), Drain(hdr, ch, q, seqNo);
            if n == 0 then d == Drained(now, q, s)
            else var d' := Drain(hdr, ch, q[n..], s);
                 sent + d.packets == sent + now + d'.packets && d.rest == d'.rest && d.seqNo == d'.seqNo
  {
    hide PassCount, PassPackets, PassSeqNo;
  }

  lemma DrainEnd(hdr: seq<Byte>, ch: seq<Channel>, q: seq<nat>, seqNo: nat, q': seq<nat>, seqNo': nat)
    requires Queued(ch, q) && Queued(ch, q')
    ensures Drain(hdr, ch, q, seqNo).rest == [] <==> AllSendable(ch, q)
    ensures q' == [] ==> Drain(hdr, ch, q', seqNo') == Drained([], [], seqNo')
  {
    DrainStops(hdr, ch, q, seqNo);
  }

  lemma {:induction false} ClearTwice(st: State, n: nat, m: nat)
    requires QueueInv(st) && n + m <= |st.queue|
    ensures ClearUpdates(ClearUpdates(st, n), m) == ClearUpdates(st, n + m)
  {
    if m > 0 {
      ClearTwice(st, n, m - 1);
    }
  }

  /** Overwriting the update count completes the data packet. */
  lemma PatchCount(hdr: seq<Byte>, seqNo: nat, items: seq<Item>, a: seq<Byte>, b: seq<Byte>)
    requires |hdr| == HEADER_SIZE && a == DataPrefix(hdr, seqNo, 0) + ItemsBytes(items)
    requires |b| == |a| && b[..ITEMS_START] == a[..COUNT_START] + LE(|items|, 2) && b[ITEMS_START..] == a[ITEMS_START..]
    ensures b == DataPacket(hdr, seqNo, items)
  {
    hide ItemsBytes, LE;
    assert a[..COUNT_START] == hdr + SubheaderBytes(CA_DATA_MESSAGE) + LE(seqNo, 2);
    assert b == b[..ITEMS_START] + b[ITEMS_START..];
  }
}
