/**
 The Channel Access receiver: what one datagram does to its state and which callbacks it makes, first as a function of
 the receive buffer, then as an object that reads the buffer with a cursor.
 */
module Receiver {
  import opened Bytes
  import opened Protocol

  /** The size in bytes of a value of a Channel Access type and element count (dbr_size_n). */
  type SizeOf = (nat, nat) -> nat

  datatype Config = Config(hash: nat, size: SizeOf)

  datatype Channel = Channel(disconnected: bool, lastUpdate: int)

  /** A callback; a disconnect carries count 0xFFFFFFFF and no data. */
  datatype Event = Update(id: nat, typ: nat, count: nat, data: seq<Byte>)

  datatype State = State(
    lastSeq: nat, active: nat, lastFrag: nat, startup: nat,
    fragData: seq<Byte>, fragTotal: nat,
    channels: seq<Channel>, now: int)

  datatype Cursor = Cursor(pos: nat, good: bool) {
    function Ensure(n: nat, limit: nat): Cursor {
      Cursor(pos, good && n <= (limit - pos) % U64)
    }
  }

  /**
   What a stretch of parsing does. It is wild when the next read would leave the receive buffer: from there on the
   source reads memory that does not belong to it and nothing can be said.
   */
  datatype Outcome = Outcome(st: State, cur: Cursor, events: seq<Event>, wild: bool)

  function Prepend(events: seq<Event>, o: Outcome): Outcome {
    o.(events := events + o.events)
  }

  const TOLERABLE_DIFF: nat := 0xFFFF / 2

  // ---------------------------------------------------------------- order and sender checks

  predicate InWindow(seqNo: nat, last: nat) {
    (seqNo - last) % U16 < TOLERABLE_DIFF
  }

  /** validate_order for data messages: the last number moves even when the message is rejected. */
  function Ordered(st: State, seqNo: nat): (State, bool) {
    (st.(lastSeq := seqNo), InWindow(seqNo, st.lastSeq))
  }

  /** validate_order for fragments. */
  function FragOrdered(st: State, seqNo: nat, fragNo: nat): (State, bool) {
    if fragNo == 0 then
      var (st1, ok) := Ordered(st, seqNo);
      if ok then (st1.(active := seqNo, lastFrag := 0), true) else (st1, false)
    else if st.active != seqNo then
      (st.(active := MINUS_ONE_16), false)
    else
      var last := (st.lastFrag + 1) % U16;
      if last == fragNo then (st.(lastFrag := last), true)
      else (st.(lastFrag := last, active := MINUS_ONE_16), false)
  }

  /** validate_sender */
  function FromSender(st: State, startup: nat): (State, bool) {
    if startup == st.startup then (st, true)
    else if startup > st.startup then (st.(startup := startup, lastSeq := MINUS_ONE_16), true)
    else (st, false)
  }

  // ---------------------------------------------------------------- messages

  /** The state and the callbacks after one channel update whose data begin at position at. */
  function Apply(cfg: Config, st: State, it: Item, mem: seq<Byte>, at: nat): (State, seq<Event>) {
    if it.id >= |st.channels| then (st, [])
    else if it.count == MINUS_ONE_16 then
      (st.(channels := st.channels[it.id := Channel(true, st.now)]), [Update(it.id, it.typ, MINUS_ONE_32, [])])
    else
      (st.(channels := st.channels[it.id := Channel(false, st.now)]),
       [Update(it.id, it.typ, it.count, Window(mem, at, cfg.size(it.typ, it.count)))])
  }

  function DataSize(cfg: Config, it: Item): nat {
    if it.count == MINUS_ONE_16 then 0 else cfg.size(it.typ, it.count)
  }

  /** The next k channel updates of a data message. */
  function Items(cfg: Config, st: State, mem: seq<Byte>, limit: nat, cur: Cursor, k: nat): Outcome
    decreases k
  {
    if k == 0 then Outcome(st, cur, [], false)
    else
      var c := cur.Ensure(CHANNEL_DATA_SIZE, limit);
      if !c.good then Outcome(st, c, [], false)
      else if c.pos + CHANNEL_DATA_SIZE > |mem| then Outcome(st, c, [], true)
      else
        var it := ChannelDataAt(mem, c.pos);
        var at := c.pos + CHANNEL_DATA_SIZE;
        var (st1, events) := Apply(cfg, st, it, mem, at);
        Prepend(events, Items(cfg, st1, mem, limit, Cursor(Up8(at + DataSize(cfg, it)), true), k - 1))
  }

  function DataMessage(cfg: Config, st: State, mem: seq<Byte>, limit: nat, cur: Cursor): Outcome {
    var c := cur.Ensure(DATA_MESSAGE_SIZE, limit);
    if !c.good then Outcome(st, c, [], false)
    else if c.pos + DATA_MESSAGE_SIZE > |mem| then Outcome(st, c, [], true)
    else
      var (st1, ok) := Ordered(st, UintAt(mem, c.pos, 2));
      var c1 := Cursor(c.pos + DATA_MESSAGE_SIZE, true);
      if ok then Items(cfg, st1, mem, limit, c1, UintAt(mem, c.pos + 2, 2)) else Outcome(st1, c1, [], false)
  }

  /** The first fragment of a set makes the buffer that its type and count ask for. */
  function StartSet(cfg: Config, st: State, f: FragInfo): (st': State) {
    if f.fragNo == 0 then st.(fragData := [], fragTotal := cfg.size(f.typ, f.count)) else st
  }

  /** An accepted fragment whose bytes are data; it is ignored if there is no room for it. */
  function TakeFragment(cfg: Config, st: State, f: FragInfo, data: seq<Byte>): (State, seq<Event>) {
    var st1 := StartSet(cfg, st, f);
    if |st1.fragData| + |data| > st1.fragTotal then (st1, [])
    else
      var all := st1.fragData + data;
      (st1.(fragData := all), if |all| == st1.fragTotal then [Update(f.id, f.typ, f.count, all)] else [])
  }

  function FragMessage(cfg: Config, st: State, mem: seq<Byte>, limit: nat, cur: Cursor): Outcome {
    var c := cur.Ensure(FRAG_MESSAGE_SIZE, limit);
    if !c.good then Outcome(st, c, [], false)
    else if c.pos + FRAG_MESSAGE_SIZE > |mem| then Outcome(st, c, [], true)
    else
      var f := FragInfoAt(mem, c.pos);
      var c1 := Cursor(c.pos + FRAG_MESSAGE_SIZE, true);
      var (st1, ok) := FragOrdered(st, f.seqNo, f.fragNo);
      var st2 := StartSet(cfg, st1, f);
      if !ok then Outcome(st1, c1, [], false)
      else if |st2.fragData| + f.size > st2.fragTotal then Outcome(st2, c1, [], false)
      else if c1.pos + f.size > |mem| then Outcome(st2, c1, [], true)
      else
        var (st3, events) := TakeFragment(cfg, st1, f, mem[c1.pos..c1.pos + f.size]);
        Outcome(st3, c1, events, false)
  }

  function Message(cfg: Config, st: State, mem: seq<Byte>, limit: nat, cur: Cursor, id: Byte): (o: Outcome)
    ensures o.cur.pos >= cur.pos
  {
    if id == CA_DATA_MESSAGE then
      ItemsAdvance(cfg, st, mem, limit, cur);
      DataMessage(cfg, st, mem, limit, cur)
    else if id == CA_FRAG_DATA_MESSAGE then FragMessage(cfg, st, mem, limit, cur)
    else Outcome(st, cur, [], false)
  }

  lemma {:induction false} ItemsNeverBack(cfg: Config, st: State, mem: seq<Byte>, limit: nat, cur: Cursor, k: nat)
    ensures Items(cfg, st, mem, limit, cur, k).cur.pos >= cur.pos
    decreases k
  {
    hide Apply, ChannelDataAt, DataSize;
    if k > 0 {
      var c := cur.Ensure(CHANNEL_DATA_SIZE, limit);
      if c.good && c.pos + CHANNEL_DATA_SIZE <= |mem| {
        var it := ChannelDataAt(mem, c.pos);
        var at := c.pos + CHANNEL_DATA_SIZE;
        var (st1, events) := Apply(cfg, st, it, mem, at);
        ItemsNeverBack(cfg, st1, mem, limit, Cursor(Up8(at + DataSize(cfg, it)), true), k - 1);
      }
    }
  }

  lemma ItemsAdvance(cfg: Config, st: State, mem: seq<Byte>, limit: nat, cur: Cursor)
    ensures DataMessage(cfg, st, mem, limit, cur).cur.pos >= cur.pos
  {
    var c := cur.Ensure(DATA_MESSAGE_SIZE, limit);
    if c.good && c.pos + DATA_MESSAGE_SIZE <= |mem| {
      var (st1, ok) := Ordered(st, UintAt(mem, c.pos, 2));
      ItemsNeverBack(cfg, st1, mem, limit, Cursor(c.pos + DATA_MESSAGE_SIZE, true), UintAt(mem, c.pos + 2, 2));
    }
  }

  /**
   The submessages from the cursor on. A non-zero distance to the next header ends the packet if it is in range, and
   is ignored if it is not: the source has this test the wrong way round.
   */
  function Submessages(cfg: Config, st: State, mem: seq<Byte>, limit: nat, cur: Cursor): Outcome
    decreases |mem| - cur.pos
  {
    var c := cur.Ensure(SUBMESSAGE_HEADER_SIZE, limit);
    if !c.good then Outcome(st, c, [], false)
    else if c.pos + SUBMESSAGE_HEADER_SIZE > |mem| then Outcome(st, c, [], true)
    else
      var id, flags, toNext := mem[c.pos], mem[c.pos + 1], UintAt(mem, c.pos + 2, 2);
      var payload := c.pos + SUBMESSAGE_HEADER_SIZE;
      if flags % 2 == 0 then Outcome(st, Cursor(payload, true), [], false)
      else
        var o := Message(cfg, st, mem, limit, Cursor(payload, true), id);
        if o.wild || toNext == 0 || payload + toNext <= limit then o
        else Prepend(o.events, Submessages(cfg, o.st, mem, limit, o.cur))
  }

  /** receive_updates on the n bytes just received at the front of the receive buffer. */
  function Receive(cfg: Config, st: State, mem: seq<Byte>, n: nat): Outcome
    requires n <= |mem|
  {
    if n < HEADER_SIZE then Outcome(st, Cursor(0, false), [], false)
    else
      var h := HeaderAt(mem, 0);
      if h.magic != MAGIC || h.hash != cfg.hash then Outcome(st, Cursor(HEADER_SIZE, true), [], false)
      else
        var (st1, ok) := FromSender(st, h.startup);
        if ok then Submessages(cfg, st1, mem, n, Cursor(HEADER_SIZE, true))
        else Outcome(st1, Cursor(HEADER_SIZE, true), [], false)
  }

  // ---------------------------------------------------------------- silence

  const NS_PER_SECOND: int := 1_000_000_000

  /** A duration in whole seconds, rounded towards zero. */
  function Secs(d: int): int {
    if d >= 0 then d / NS_PER_SECOND else -(-d / NS_PER_SECOND)
  }

  predicate Elapsed(now: int, since: int, period: real) {
    Secs(now - since) as real >= period
  }

  predicate Silent(c: Channel, now: int, heartbeat: real) {
    !c.disconnected && Elapsed(now, c.lastUpdate, 2.0 * heartbeat)
  }

  /** The channels after a check at time now: those that were silent for too long are marked. */
  function Marked(channels: seq<Channel>, now: int, heartbeat: real): (r: seq<Channel>)
    ensures |r| == |channels|
  {
    seq(|channels|, i requires 0 <= i < |channels| =>
      if Silent(channels[i], now, heartbeat) then channels[i].(disconnected := true) else channels[i])
  }

  /** The ids of the channels that a check at time now reports, in order. */
  function SilentIds(channels: seq<Channel>, now: int, heartbeat: real): seq<nat> {
    if channels == [] then []
    else
      var n := |channels| - 1;
      SilentIds(channels[..n], now, heartbeat) + if Silent(channels[n], now, heartbeat) then [n] else []
  }

  // ---------------------------------------------------------------- one step of each loop

  lemma ItemsStep(cfg: Config, st: State, mem: seq<Byte>, limit: nat, cur: Cursor, k: nat, before: seq<Event>)
    requires k > 0
    ensures var c := cur.Ensure(CHANNEL_DATA_SIZE, limit);
            Prepend(before, Items(cfg, st, mem, limit, cur, k)) ==
            if !c.good then Prepend(before, Items(cfg, st, mem, limit, c, k - 1))
            else if c.pos + CHANNEL_DATA_SIZE > |mem| then Outcome(st, c, before, true)
            else
              var it := ChannelDataAt(mem, c.pos);
              var at := c.pos + CHANNEL_DATA_SIZE;
              var (st1, events) := Apply(cfg, st, it, mem, at);
              Prepend(before + events, Items(cfg, st1, mem, limit, Cursor(Up8(at + DataSize(cfg, it)), true), k - 1))
  {
    hide Apply, ChannelDataAt, DataSize;
  }

  lemma ItemsEnd(cfg: Config, st: State, mem: seq<Byte>, limit: nat, cur: Cursor)
    ensures Items(cfg, st, mem, limit, cur, 0) == Outcome(st, cur, [], false)
  {
  }

  lemma SubmessagesStep(cfg: Config, st: State, mem: seq<Byte>, limit: nat, cur: Cursor, before: seq<Event>)
    ensures var c := cur.Ensure(SUBMESSAGE_HEADER_SIZE, limit);
            Prepend(before, Submessages(cfg, st, mem, limit, cur)) ==
            if !c.good then Outcome(st, c, before, false)
            else if c.pos + SUBMESSAGE_HEADER_SIZE > |mem| then Outcome(st, c, before, true)
            else
              var payload, toNext := c.pos + SUBMESSAGE_HEADER_SIZE, UintAt(mem, c.pos + 2, 2);
              if mem[c.pos + 1] % 2 == 0 then Outcome(st, Cursor(payload, true), before, false)
              else
                var o := Message(cfg, st, mem, limit, Cursor(payload, true), mem[c.pos]);
                if o.wild || toNext == 0 || payload + toNext <= limit then Prepend(before, o)
                else Prepend(before + o.events, Submessages(cfg, o.st, mem, limit, o.cur))
  {
    hide Message;
  }

  // ---------------------------------------------------------------- the object

  class Receiver {
    const cfg: Config
    const heartbeatPeriod: real
    const receiveBuffer: array<Byte>

    var lastSeqNo: nat
    var activeFragmentSeqNo: nat
    var lastFragmentSeqNo: nat
    var lastStartupTime: nat
    var fragmentBuffer: array<Byte>
    var fragmentPos: nat
    var channels: seq<Channel>
    var currentUpdateTime: int
    var lastHeartbeatTime: int

    ghost predicate Valid()
      reads this
    {
      && receiveBuffer.Length < U64 && fragmentPos <= fragmentBuffer.Length
      && fragmentBuffer != receiveBuffer
    }

    ghost function St(): State
      requires Valid()
      reads this, fragmentBuffer
    {
      State(lastSeqNo, activeFragmentSeqNo, lastFragmentSeqNo, lastStartupTime,
            fragmentBuffer[..fragmentPos], fragmentBuffer.Length, channels, currentUpdateTime)
    }

    constructor (cfg: Config, channelCount: nat, heartbeatPeriod: real, now: int)
      ensures Valid() && fresh(receiveBuffer) && fresh(fragmentBuffer) && this.cfg == cfg
      ensures this.heartbeatPeriod == heartbeatPeriod && lastHeartbeatTime == now
      ensures St() == State(MINUS_ONE_16, MINUS_ONE_16, MINUS_ONE_16, 0, [], 0,
                            seq(channelCount, _ => Channel(false, 0)), 0)
    {
      this.cfg := cfg;
      receiveBuffer := new Byte[MAX_MESSAGE_SIZE](_ => 0);
      lastSeqNo, activeFragmentSeqNo, lastFragmentSeqNo := MINUS_ONE_16, MINUS_ONE_16, MINUS_ONE_16;
      lastStartupTime := 0;
      fragmentBuffer, fragmentPos := new Byte[0], 0;
      channels := seq(channelCount, _ => Channel(false, 0));
      currentUpdateTime := 0;
      this.heartbeatPeriod, lastHeartbeatTime := heartbeatPeriod, now;
    }

    method ValidateOrder(seqNo: nat) returns (ok: bool)
      requires Valid()
      modifies this`lastSeqNo
      ensures Valid() && (St(), ok) == Ordered(old(St()), seqNo)
    {
      var diff := (seqNo - lastSeqNo) % U16;
      lastSeqNo := seqNo;
      ok := diff < TOLERABLE_DIFF;
    }

    method ValidateFragmentOrder(seqNo: nat, fragmentSeqNo: nat) returns (ok: bool)
      requires Valid()
      modifies this`lastSeqNo, this`activeFragmentSeqNo, this`lastFragmentSeqNo
      ensures Valid() && (St(), ok) == FragOrdered(old(St()), seqNo, fragmentSeqNo)
    {
      if fragmentSeqNo == 0 {
        ok := ValidateOrder(seqNo);
        if ok {
          activeFragmentSeqNo := seqNo;
          lastFragmentSeqNo := 0;
        }
      } else if activeFragmentSeqNo != seqNo {
        activeFragmentSeqNo := MINUS_ONE_16;
        ok := false;
      } else {
        lastFragmentSeqNo := (lastFragmentSeqNo + 1) % U16;
        ok := lastFragmentSeqNo == fragmentSeqNo;
        if !ok {
          activeFragmentSeqNo := MINUS_ONE_16;
        }
      }
    }

    method ValidateSender(startupTime: nat) returns (ok: bool)
      requires Valid()
      modifies this`lastSeqNo, this`lastStartupTime
      ensures Valid() && (St(), ok) == FromSender(old(St()), startupTime)
    {
      if startupTime == lastStartupTime {
        ok := true;
      } else if startupTime > lastStartupTime {
        lastStartupTime := startupTime;
        lastSeqNo := MINUS_ONE_16;
        ok := true;
      } else {
        ok := false;
      }
    }

    /** A callback reads at most this many bytes behind the pointer that it is given. */
    method DataAt(at: nat, size: nat) returns (data: seq<Byte>)
      ensures data == Window(receiveBuffer[..], at, size)
    {
      if at >= receiveBuffer.Length {
        data := [];
      } else if at + size <= receiveBuffer.Length {
        data := receiveBuffer[at..at + size];
        assert data == receiveBuffer[..][at..at + size];
      } else {
        data := receiveBuffer[at..];
        assert data == receiveBuffer[..][at..];
      }
    }

    /** The body of the loop over the channel updates of a data message. */
    method ReceiveItem(s: Serializer) returns (events: seq<Event>)
      requires Valid() && s.buf == receiveBuffer && s.pos + CHANNEL_DATA_SIZE <= receiveBuffer.Length
      modifies this`channels, s`pos
      ensures Valid()
      ensures var mem := receiveBuffer[..];
              var it := ChannelDataAt(mem, old(s.pos));
              && (St(), events) == Apply(cfg, old(St()), it, mem, old(s.pos) + CHANNEL_DATA_SIZE)
              && s.pos == Up8(old(s.pos) + CHANNEL_DATA_SIZE + DataSize(cfg, it))
    {
      var id := s.ReadUint(4);
      var count := s.ReadUint(2);
      var typ := s.ReadUint(2);
      var disconnected := count == MINUS_ONE_16;
      var size := if disconnected then 0 else cfg.size(typ, count);
      events := [];
      if id < |channels| {
        channels := channels[id := Channel(disconnected, currentUpdateTime)];
        var data := DataAt(s.pos, size);
        events := [Update(id, typ, if disconnected then MINUS_ONE_32 else count, data)];
      }
      if !disconnected {
        s.Advance(size);
      }
      s.PosAlign();
    }

    method ReceiveItems(s: Serializer, count: nat) returns (events: seq<Event>, wild: bool)
      requires Valid() && s.buf == receiveBuffer && s.good
      modifies this`channels, s`pos, s`good
      ensures Valid()
      ensures Outcome(St(), Cursor(s.pos, s.good), events, wild)
              == Items(cfg, old(St()), receiveBuffer[..], s.limit, Cursor(old(s.pos), true), count)
    {
      hide Items, Apply, ChannelDataAt, DataSize;
      ghost var mem := receiveBuffer[..];
      ghost var whole := Items(cfg, St(), mem, s.limit, Cursor(s.pos, true), count);
      events, wild := [], false;
      for i := 0 to count
        invariant Valid() && !wild
        invariant whole == Prepend(events, Items(cfg, St(), mem, s.limit, Cursor(s.pos, s.good), count - i))
      {
        ItemsStep(cfg, St(), mem, s.limit, Cursor(s.pos, s.good), count - i, events);
        var ok := s.Ensure(CHANNEL_DATA_SIZE);
        if ok {
          if s.pos + CHANNEL_DATA_SIZE > receiveBuffer.Length {
            wild := true;
            return;
          }
          var more := ReceiveItem(s);
          events := events + more;
        }
      }
      ItemsEnd(cfg, St(), mem, s.limit, Cursor(s.pos, s.good));
    }

    method ReceiveFragment(s: Serializer) returns (events: seq<Event>, wild: bool)
      requires Valid() && s.buf == receiveBuffer && s.good && s.pos + FRAG_MESSAGE_SIZE <= receiveBuffer.Length
      requires FRAG_MESSAGE_SIZE <= s.Remaining()
      modifies this, fragmentBuffer, s`pos
      ensures Valid() && (fragmentBuffer == old(fragmentBuffer) || fresh(fragmentBuffer))
      ensures unchanged(`lastHeartbeatTime)
      ensures Outcome(St(), Cursor(s.pos, true), events, wild)
              == FragMessage(cfg, old(St()), receiveBuffer[..], s.limit, Cursor(old(s.pos), true))
    {
      hide FragOrdered, FragInfoAt;
      var f := ReadFragInfo(s);
      events, wild := [], false;
      var ok := ValidateFragmentOrder(f.seqNo, f.fragNo);
      if ok {
        if f.fragNo == 0 {
          StartFragments(f);
        }
        if f.size <= fragmentBuffer.Length - fragmentPos {
          if s.pos + f.size > receiveBuffer.Length {
            wild := true;
            return;
          }
          events := StoreFragment(f, receiveBuffer[s.pos..s.pos + f.size]);
          assert receiveBuffer[s.pos..s.pos + f.size] == receiveBuffer[..][s.pos..s.pos + f.size];
        }
      }
    }

    method ReadFragInfo(s: Serializer) returns (f: FragInfo)
      requires s.buf == receiveBuffer && s.pos + FRAG_MESSAGE_SIZE <= receiveBuffer.Length
      modifies s`pos
      ensures f == FragInfoAt(receiveBuffer[..], old(s.pos)) && s.pos == old(s.pos) + FRAG_MESSAGE_SIZE
    {
      hide UintAt;
      var seqNo := s.ReadUint(2);
      var fragNo := s.ReadUint(2);
      var id := s.ReadUint(4);
      var count := s.ReadUint(4);
      var typ := s.ReadUint(2);
      var size := s.ReadUint(2);
      f := FragInfo(seqNo, fragNo, id, count, typ, size);
    }

    method StartFragments(f: FragInfo)
      requires Valid() && f.fragNo == 0
      modifies this`fragmentBuffer, this`fragmentPos
      ensures Valid() && fresh(fragmentBuffer)
      ensures St() == StartSet(cfg, old(St()), f)
    {
      fragmentBuffer := new Byte[cfg.size(f.typ, f.count)];
      fragmentPos := 0;
    }

    /** The bytes of a fragment for which there is room, behind those of the fragments before it. */
    method StoreFragment(f: FragInfo, data: seq<Byte>) returns (events: seq<Event>)
      requires Valid() && fragmentPos + |data| <= fragmentBuffer.Length
      modifies this`fragmentPos, fragmentBuffer
      ensures Valid()
      ensures var all := old(St()).fragData + data;
              && St() == old(St()).(fragData := all)
              && events == if |all| == St().fragTotal then [Update(f.id, f.typ, f.count, all)] else []
    {
      events := [];
      ghost var before := fragmentBuffer[..fragmentPos];
      forall i | 0 <= i < |data| {
        fragmentBuffer[fragmentPos + i] := data[i];
      }
      fragmentPos := fragmentPos + |data|;
      assert fragmentBuffer[..fragmentPos] == before + data;
      if fragmentPos == fragmentBuffer.Length {
        events := [Update(f.id, f.typ, f.count, fragmentBuffer[..])];
        assert fragmentBuffer[..] == fragmentBuffer[..fragmentPos];
      }
    }

    method ReceiveMessage(s: Serializer, id: Byte) returns (events: seq<Event>, wild: bool)
      requires Valid() && s.buf == receiveBuffer && s.good
      modifies this, fragmentBuffer, s
      ensures Valid() && (fragmentBuffer == old(fragmentBuffer) || fresh(fragmentBuffer))
      ensures unchanged(`lastHeartbeatTime)
      ensures Outcome(St(), Cursor(s.pos, s.good), events, wild)
              == Message(cfg, old(St()), receiveBuffer[..], s.limit, Cursor(old(s.pos), true), id)
    {
      hide Items, FragOrdered, TakeFragment, InWindow, UintAt;
      events, wild := [], false;
      if id == CA_DATA_MESSAGE {
        var ok := s.Ensure(DATA_MESSAGE_SIZE);
        if ok {
          if s.pos + DATA_MESSAGE_SIZE > receiveBuffer.Length {
            wild := true;
            return;
          }
          var seqNo := s.ReadUint(2);
          var count := s.ReadUint(2);
          ok := ValidateOrder(seqNo);
          if ok {
            events, wild := ReceiveItems(s, count);
          }
        }
      } else if id == CA_FRAG_DATA_MESSAGE {
        var ok := s.Ensure(FRAG_MESSAGE_SIZE);
        if ok {
          if s.pos + FRAG_MESSAGE_SIZE > receiveBuffer.Length {
            wild := true;
            return;
          }
          events, wild := ReceiveFragment(s);
        }
      }
    }

    method ReceiveSubmessages(s: Serializer) returns (events: seq<Event>, wild: bool)
      requires Valid() && s.buf == receiveBuffer && s.good
      modifies this, fragmentBuffer, s
      ensures Valid() && (fragmentBuffer == old(fragmentBuffer) || fresh(fragmentBuffer))
      ensures unchanged(`lastHeartbeatTime)
      ensures var o := Submessages(cfg, old(St()), receiveBuffer[..], s.limit, Cursor(old(s.pos), true));
              St() == o.st && events == o.events && wild == o.wild
    {
      hide Submessages, Message;
      ghost var mem := receiveBuffer[..];
      ghost var whole := Submessages(cfg, St(), mem, s.limit, Cursor(s.pos, true));
      events, wild := [], false;
      while true
        invariant Valid() && !wild && (fragmentBuffer == old(fragmentBuffer) || fresh(fragmentBuffer))
        invariant whole == Prepend(events, Submessages(cfg, St(), mem, s.limit, Cursor(s.pos, s.good)))
        invariant unchanged(`lastHeartbeatTime)
        decreases receiveBuffer.Length - s.pos, s.good
      {
        SubmessagesStep(cfg, St(), mem, s.limit, Cursor(s.pos, s.good), events);
        var ok := s.Ensure(SUBMESSAGE_HEADER_SIZE);
        if !ok {
          break;
        }
        if s.pos + SUBMESSAGE_HEADER_SIZE > receiveBuffer.Length {
          wild := true;
          return;
        }
        var head := s.Read(2);
        var toNext := s.ReadUint(2);
        if head[1] % 2 == 0 {
          break;
        }
        var payload := s.pos;
        var more;
        more, wild := ReceiveMessage(s, head[0]);
        events := events + more;
        if wild || toNext == 0 || payload + toNext <= s.limit {
          break;
        }
      }
    }

    /** receive_updates, for a datagram of n bytes that the socket has put into the receive buffer. */
    method ReceiveUpdates(n: nat) returns (events: seq<Event>, wild: bool)
      requires Valid() && n <= receiveBuffer.Length
      modifies this, fragmentBuffer
      ensures Valid() && (fragmentBuffer == old(fragmentBuffer) || fresh(fragmentBuffer))
      ensures unchanged(`lastHeartbeatTime)
      ensures var o := Receive(cfg, old(St()), receiveBuffer[..], n);
              St() == o.st && events == o.events && wild == o.wild
    {
      hide FromLE;
      events, wild := [], false;
      var s := new Serializer(receiveBuffer, n);
      var ok := s.Ensure(HEADER_SIZE);
      if ok {
        var magic := s.Read(4);
        s.Advance(4);
        var startup := s.ReadUint(8);
        var hash := s.ReadUint(8);
        assert receiveBuffer[..][0..4] == magic;
        if magic != MAGIC || hash != cfg.hash {
          return;
        }
        ok := ValidateSender(startup);
        if !ok {
          return;
        }
        events, wild := ReceiveSubmessages(s);
      }
    }

    // -------------------------------------------------------------- silence

    /** check_no_updates: on every heartbeat, report the channels that have been silent for two heartbeats. */
    method CheckNoUpdates() returns (timedOut: seq<nat>)
      modifies this`channels, this`lastHeartbeatTime
      ensures if Elapsed(currentUpdateTime, old(lastHeartbeatTime), heartbeatPeriod) then
                && channels == Marked(old(channels), currentUpdateTime, heartbeatPeriod)
                && timedOut == SilentIds(old(channels), currentUpdateTime, heartbeatPeriod)
                && lastHeartbeatTime == currentUpdateTime
              else channels == old(channels) && timedOut == [] && lastHeartbeatTime == old(lastHeartbeatTime)
    {
      timedOut := [];
      if Elapsed(currentUpdateTime, lastHeartbeatTime, heartbeatPeriod) {
        for i := 0 to |channels|
          invariant |channels| == |old(channels)| && channels[i..] == old(channels)[i..]
          invariant forall j :: 0 <= j < i ==>
                      channels[j] == Marked(old(channels), currentUpdateTime, heartbeatPeriod)[j]
          invariant timedOut == SilentIds(old(channels)[..i], currentUpdateTime, heartbeatPeriod)
        {
          assert channels[i] == old(channels)[i];
          assert old(channels)[..i + 1][..i] == old(channels)[..i];
          if Silent(channels[i], currentUpdateTime, heartbeatPeriod) {
            channels := channels[i := channels[i].(disconnected := true)];
            timedOut := timedOut + [i];
          }
        }
        assert old(channels)[..|channels|] == old(channels);
        lastHeartbeatTime := currentUpdateTime;
      }
    }
  }
}
